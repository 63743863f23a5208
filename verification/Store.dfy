/** The in-memory wallet store (wallet/ephemeralstore.go): outputs, transactions, the recent index
    and the address index, as consensus changes revise them. */
module Store {
  import opened Chain
  import opened Wallet

  // ---------- the chain after a change ----------

  /** The reverted blocks are the last ones, the newest first, and no transaction is in the chain
      twice. */
  ghost predicate ValidChange(blocks: seq<Block>, cc: Change) {
    && |cc.reverted| <= |blocks|
    && (forall i :: 0 <= i < |cc.reverted| ==> cc.reverted[i] == blocks[|blocks| - 1 - i])
    && DistinctIds(Flat(blocks)) && DistinctIds(Flat(NewBlocks(blocks, cc)))
  }

  function NewBlocks(blocks: seq<Block>, cc: Change): seq<Block>
    requires |cc.reverted| <= |blocks|
  {
    blocks[..|blocks| - |cc.reverted|] + cc.applied
  }

  lemma {:induction false} FlatHas(blocks: seq<Block>, t: Txn)
    ensures t in Flat(blocks) <==> exists i :: 0 <= i < |blocks| && t in blocks[i]
    decreases |blocks|
  {
    if |blocks| > 0 {
      FlatHas(blocks[1..], t);
      if i :| 0 <= i < |blocks[1..]| && t in blocks[1..][i] {
        assert blocks[i + 1] == blocks[1..][i];
      }
      if i :| 0 <= i < |blocks| && t in blocks[i] {
        assert i > 0 ==> blocks[1..][i - 1] == blocks[i];
      }
    }
  }

  lemma RevertedTxns(blocks: seq<Block>, cc: Change, t: Txn)
    requires ValidChange(blocks, cc)
    ensures t in Flat(cc.reverted) <==> t in Flat(blocks[|blocks| - |cc.reverted|..])
  {
    var tail := blocks[|blocks| - |cc.reverted|..];
    FlatHas(cc.reverted, t);
    FlatHas(tail, t);
    var n := |tail|;
    if i :| 0 <= i < n && t in cc.reverted[i] {
      assert tail[n - 1 - i] == cc.reverted[i];
    }
    if i :| 0 <= i < n && t in tail[i] {
      var j := n - 1 - i;
      assert cc.reverted[j] == blocks[|blocks| - 1 - j] == tail[i];
    }
  }

  /** The relevant transactions by address after a change: the reverted ones are taken out, the
      applied ones go to the end. */
  lemma IndexTracked(blocks: seq<Block>, cc: Change, addrs: set<Address>)
    requires ValidChange(blocks, cc)
    ensures RemoveEach(Touching(Flat(blocks), addrs), Touching(Flat(cc.reverted), addrs)) + Touching(Flat(cc.applied), addrs)
         == Touching(Flat(NewBlocks(blocks, cc)), addrs)
    ensures Distinct(Touching(Flat(blocks), addrs)) && Distinct(Touching(Flat(NewBlocks(blocks, cc)), addrs))
  {
    var k := |blocks| - |cc.reverted|;
    var keep, tail := Flat(blocks[..k]), Flat(blocks[k..]);
    assert blocks == blocks[..k] + blocks[k..];
    FlatConcat(blocks[..k], blocks[k..]);
    FlatConcat(blocks[..k], cc.applied);
    TouchingConcat(keep, tail, addrs);
    TouchingConcat(keep, Flat(cc.applied), addrs);
    TouchingDistinct(Flat(blocks), addrs);
    TouchingDistinct(Flat(NewBlocks(blocks, cc)), addrs);
    DistinctTail(keep, tail);
    TouchingDistinct(tail, addrs);
    forall x | x in Touching(Flat(cc.reverted), addrs) ensures x !in Touching(keep, addrs) {
      RevertedApart(blocks, cc, keep, tail, addrs, x);
    }
    forall x | x in Touching(tail, addrs) ensures x in Touching(Flat(cc.reverted), addrs) {
      TouchingHas(tail, addrs, x);
      TouchingHas(Flat(cc.reverted), addrs, x);
      var t :| t in tail && t.id == x && !(t.addrs !! addrs);
      RevertedTxns(blocks, cc, t);
    }
    RemoveTail(Touching(keep, addrs), Touching(tail, addrs), Touching(Flat(cc.reverted), addrs));
  }

  lemma DistinctTail(a: seq<Txn>, b: seq<Txn>)
    requires DistinctIds(a + b)
    ensures DistinctIds(b)
    ensures forall s, t :: s in a && t in b ==> s.id != t.id
  {
    forall i, j | 0 <= i < j < |b| ensures b[i].id != b[j].id {
      assert (a + b)[|a| + i] == b[i] && (a + b)[|a| + j] == b[j];
    }
    forall s, t | s in a && t in b ensures s.id != t.id {
      var i :| 0 <= i < |a| && a[i] == s;
      var j :| 0 <= j < |b| && b[j] == t;
      assert (a + b)[i] == s && (a + b)[|a| + j] == t;
    }
  }

  lemma RevertedApart(blocks: seq<Block>, cc: Change, keep: seq<Txn>, tail: seq<Txn>, addrs: set<Address>, x: TxnId)
    requires ValidChange(blocks, cc) && tail == Flat(blocks[|blocks| - |cc.reverted|..])
    requires forall s, t :: s in keep && t in tail ==> s.id != t.id
    requires x in Touching(Flat(cc.reverted), addrs)
    ensures x !in Touching(keep, addrs)
  {
    TouchingHas(Flat(cc.reverted), addrs, x);
    TouchingHas(keep, addrs, x);
    var t :| t in Flat(cc.reverted) && t.id == x;
    RevertedTxns(blocks, cc, t);
  }

  function Ids(txns: seq<Txn>): seq<TxnId> {
    if |txns| == 0 then [] else [txns[0].id] + Ids(txns[1..])
  }

  lemma {:induction false} RelevantIds(txns: seq<Txn>, owner: set<Address>)
    ensures Ids(Relevant(txns, owner)) == Touching(txns, owner)
  {
    if |txns| > 0 {
      RelevantIds(txns[1..], owner);
      if txns[0].addrs !! owner {
        assert Relevant(txns, owner) == Relevant(txns[1..], owner);
      } else {
        assert Relevant(txns, owner)[1..] == Relevant(txns[1..], owner);
      }
    }
  }

  // ---------- the transactions themselves ----------

  /** The map after the transactions are deleted, and after they are stored. */
  function DropTxns(m: map<TxnId, Txn>, ts: seq<Txn>): map<TxnId, Txn>
    decreases |ts|
  {
    if |ts| == 0 then m else DropTxns(m - {ts[0].id}, ts[1..])
  }

  function AddTxns(m: map<TxnId, Txn>, ts: seq<Txn>): map<TxnId, Txn>
    decreases |ts|
  {
    if |ts| == 0 then m else AddTxns(m[ts[0].id := ts[0]], ts[1..])
  }

  lemma {:induction false} DropHas(m: map<TxnId, Txn>, ts: seq<Txn>, id: TxnId)
    requires id in DropTxns(m, ts)
    ensures id in m && DropTxns(m, ts)[id] == m[id] && forall t :: t in ts ==> t.id != id
    decreases |ts|
  {
    if |ts| > 0 {
      DropHas(m - {ts[0].id}, ts[1..], id);
      assert ts == [ts[0]] + ts[1..];
    }
  }

  lemma {:induction false} AddHas(m: map<TxnId, Txn>, ts: seq<Txn>, id: TxnId)
    requires id in AddTxns(m, ts)
    ensures var t := AddTxns(m, ts)[id]; (id in m && t == m[id]) || (t in ts && t.id == id)
    decreases |ts|
  {
    if |ts| > 0 {
      AddHas(m[ts[0].id := ts[0]], ts[1..], id);
      assert ts == [ts[0]] + ts[1..];
    }
  }

  lemma {:induction false} RelevantHas(txns: seq<Txn>, owner: set<Address>, t: Txn)
    ensures t in Relevant(txns, owner) <==> t in txns && !(t.addrs !! owner)
  {
    if |txns| > 0 {
      RelevantHas(txns[1..], owner, t);
      assert txns == [txns[0]] + txns[1..];
    }
  }

  /** Under every id is a transaction of the chain with that id, and one of the owner's. */
  ghost predicate Stored(m: map<TxnId, Txn>, txns: seq<Txn>, owner: set<Address>) {
    forall id :: id in m ==> m[id].id == id && m[id] in txns && !(m[id].addrs !! owner)
  }

  /** The stored transactions keep up with the chain. */
  lemma StoredTracked(blocks: seq<Block>, cc: Change, owner: set<Address>, m: map<TxnId, Txn>)
    requires ValidChange(blocks, cc) && Stored(m, Flat(blocks), owner)
    ensures Stored(AddTxns(DropTxns(m, Relevant(Flat(cc.reverted), owner)), Relevant(Flat(cc.applied), owner)),
                   Flat(NewBlocks(blocks, cc)), owner)
  {
    var k := |blocks| - |cc.reverted|;
    assert blocks == blocks[..k] + blocks[k..];
    FlatConcat(blocks[..k], blocks[k..]);
    FlatConcat(blocks[..k], cc.applied);
    var mid := DropTxns(m, Relevant(Flat(cc.reverted), owner));
    var after := AddTxns(mid, Relevant(Flat(cc.applied), owner));
    forall id | id in after
      ensures after[id].id == id && after[id] in Flat(NewBlocks(blocks, cc)) && !(after[id].addrs !! owner)
    {
      var t := after[id];
      AddHas(mid, Relevant(Flat(cc.applied), owner), id);
      RelevantHas(Flat(cc.applied), owner, t);
      if id in mid && t == mid[id] {
        DropHas(m, Relevant(Flat(cc.reverted), owner), id);
        RelevantHas(Flat(cc.reverted), owner, t);
        RevertedTxns(blocks, cc, t);
      }
    }
  }

  // ---------- the store ----------

  /** The inner loop over an index: the first occurrence goes. */
  method RemoveOne(s: seq<TxnId>, x: TxnId) returns (r: seq<TxnId>)
    ensures r == RemoveFirst(s, x)
  {
    for i := 0 to |s|
      invariant RemoveFirst(s, x) == s[..i] + RemoveFirst(s[i..], x)
    {
      if s[i] == x {
        return s[..i] + s[i + 1..];
      }
      assert s[i..][1..] == s[i + 1..] && s[..i + 1] == s[..i] + [s[i]];
    }
    assert RemoveFirst(s[|s|..], x) == [];
    r := s;
  }

  method RemoveIds(s: seq<TxnId>, xs: seq<TxnId>) returns (r: seq<TxnId>)
    ensures r == RemoveEach(s, xs)
  {
    r := s;
    for i := 0 to |xs|
      invariant RemoveEach(r, xs[i..]) == RemoveEach(s, xs)
    {
      assert xs[i..][1..] == xs[i + 1..];
      r := RemoveOne(r, xs[i]);
    }
  }

  type Index = map<Address, seq<TxnId>>

  ghost predicate Revised(idx: Index, before: Index, m: Index, a: Address) {
    Get(idx, a) == RemoveEach(Get(before, a), Get(m, a))
  }

  ghost predicate Extended(idx: Index, before: Index, m: Index, a: Address) {
    Get(idx, a) == Get(before, a) + Get(m, a)
  }

  ghost predicate Same(idx: Index, before: Index, a: Address) {
    Get(idx, a) == Get(before, a)
  }

  /** Half-way through a map: the addresses still to do are as before, the others are done. */
  ghost predicate RevertedTo(idx: Index, before: Index, m: Index, todo: set<Address>) {
    && todo <= m.Keys && idx.Keys == before.Keys + (m.Keys - todo)
    && (forall a :: a in todo ==> Same(idx, before, a))
    && (forall a :: a !in todo ==> Revised(idx, before, m, a))
  }

  ghost predicate AppliedTo(idx: Index, before: Index, m: Index, todo: set<Address>) {
    && todo <= m.Keys && idx.Keys == before.Keys + (m.Keys - todo)
    && (forall a :: a in todo ==> Same(idx, before, a))
    && (forall a :: a !in todo ==> Extended(idx, before, m, a))
  }

  lemma NothingDone(before: Index, m: Index)
    ensures RevertedTo(before, before, m, m.Keys) && AppliedTo(before, before, m, m.Keys)
  {
  }

  lemma RevertStep(idx: Index, before: Index, m: Index, todo: set<Address>, a: Address)
    requires RevertedTo(idx, before, m, todo) && a in todo
    ensures RevertedTo(idx[a := RemoveEach(Get(idx, a), m[a])], before, m, todo - {a})
  {
    var next := idx[a := RemoveEach(Get(idx, a), m[a])];
    assert Same(idx, before, a);
    forall b | b !in todo - {a} ensures Revised(next, before, m, b) {
      assert b != a ==> Revised(idx, before, m, b);
    }
    forall b | b in todo - {a} ensures Same(next, before, b) {
      assert Same(idx, before, b);
    }
  }

  lemma ApplyStep(idx: Index, before: Index, m: Index, todo: set<Address>, a: Address)
    requires AppliedTo(idx, before, m, todo) && a in todo
    ensures AppliedTo(idx[a := Get(idx, a) + m[a]], before, m, todo - {a})
  {
    var next := idx[a := Get(idx, a) + m[a]];
    assert Same(idx, before, a);
    forall b | b !in todo - {a} ensures Extended(next, before, m, b) {
      assert b != a ==> Extended(idx, before, m, b);
    }
    forall b | b in todo - {a} ensures Same(next, before, b) {
      assert Same(idx, before, b);
    }
  }

  /** The loops over the address maps take the addresses in any order. */
  method RevertAddresses(before: Index, m: Index) returns (idx: Index)
    ensures RevertedTo(idx, before, m, {})
  {
    var todo := m.Keys;
    idx := before;
    NothingDone(before, m);
    while todo != {}
      invariant RevertedTo(idx, before, m, todo)
      decreases |todo|
    {
      var a :| a in todo;
      RevertStep(idx, before, m, todo, a);
      var left := RemoveIds(Get(idx, a), m[a]);
      idx := idx[a := left];
      todo := todo - {a};
    }
  }

  method ApplyAddresses(before: Index, m: Index) returns (idx: Index)
    ensures AppliedTo(idx, before, m, {})
  {
    var todo := m.Keys;
    idx := before;
    NothingDone(before, m);
    while todo != {}
      invariant AppliedTo(idx, before, m, todo)
      decreases |todo|
    {
      var a :| a in todo;
      ApplyStep(idx, before, m, todo, a);
      idx := idx[a := Get(idx, a) + m[a]];
      todo := todo - {a};
    }
  }

  /** The address index keeps up with the chain. */
  lemma AddressesTracked(blocks: seq<Block>, cc: Change, owner: set<Address>, before: Index, r: Index, a: Index, mid: Index, after: Index)
    requires ValidChange(blocks, cc) && ByAddress(before, Flat(blocks), owner)
    requires ByAddress(r, Flat(cc.reverted), owner) && ByAddress(a, Flat(cc.applied), owner)
    requires RevertedTo(mid, before, r, {}) && AppliedTo(after, mid, a, {})
    ensures ByAddress(after, Flat(NewBlocks(blocks, cc)), owner)
  {
    forall x | x in owner ensures Get(after, x) == Touching(Flat(NewBlocks(blocks, cc)), {x}) {
      assert Revised(mid, before, r, x) && Extended(after, mid, a, x);
      IndexTracked(blocks, cc, {x});
    }
  }

  class EphemeralStore {
    var outputs: Outputs
    var txns: map<TxnId, Txn>
    var recent: seq<TxnId>
    var addrIndex: map<Address, seq<TxnId>>
    var height: int

    constructor ()
      ensures outputs == map[] && txns == map[] && recent == [] && addrIndex == map[] && height == 0
    {
      outputs, txns, recent, addrIndex, height := map[], map[], [], map[], 0;
    }

    /** The recent index lists the transactions of the map, each once. */
    ghost predicate Indexed()
      reads this
    {
      Distinct(recent) && forall id :: id in txns <==> id in recent
    }

    /** The store has the owner's part of the chain, and nothing else. */
    ghost predicate Tracks(owner: set<Address>, u: Outputs, blocks: seq<Block>)
      reads this
    {
      && outputs == Owned(u, owner)
      && recent == Touching(Flat(blocks), owner) && Indexed() && Stored(txns, Flat(blocks), owner)
      && ByAddress(addrIndex, Flat(blocks), owner)
      && height == |blocks|
    }

    method RevertOutputs(out: seq<Diff>)
      modifies this`outputs
      ensures outputs == TakeOut(old(outputs), out)
    {
      for i := 0 to |out|
        invariant TakeOut(outputs, out[i..]) == TakeOut(old(outputs), out)
      {
        assert out[i..][1..] == out[i + 1..];
        outputs := outputs - {out[i].id};
      }
    }

    method ApplyOutputs(out: seq<Diff>)
      modifies this`outputs
      ensures outputs == PutIn(old(outputs), out)
    {
      for i := 0 to |out|
        invariant PutIn(outputs, out[i..]) == PutIn(old(outputs), out)
      {
        assert out[i..][1..] == out[i + 1..];
        outputs := outputs[out[i].id := out[i].output];
      }
    }

    method RevertTxns(ts: seq<Txn>)
      requires Indexed()
      modifies this`txns, this`recent
      ensures Indexed() && recent == RemoveEach(old(recent), Ids(ts)) && txns == DropTxns(old(txns), ts)
    {
      for i := 0 to |ts|
        invariant DropTxns(txns, ts[i..]) == DropTxns(old(txns), ts)
        invariant Indexed() && RemoveEach(recent, Ids(ts[i..])) == RemoveEach(old(recent), Ids(ts))
      {
        assert ts[i..][1..] == ts[i + 1..];
        RemoveFirstHas(recent, ts[i].id);
        txns := txns - {ts[i].id};
        recent := RemoveOne(recent, ts[i].id);
      }
    }

    method ApplyTxns(ts: seq<Txn>)
      requires Indexed() && Distinct(recent + Ids(ts))
      modifies this`txns, this`recent
      ensures Indexed() && recent == old(recent) + Ids(ts) && txns == AddTxns(old(txns), ts)
    {
      for i := 0 to |ts|
        invariant AddTxns(txns, ts[i..]) == AddTxns(old(txns), ts)
        invariant recent + Ids(ts[i..]) == old(recent) + Ids(ts)
        invariant forall id :: id in txns <==> id in recent
      {
        assert ts[i..][1..] == ts[i + 1..];
        txns := txns[ts[i].id := ts[i]];
        recent := recent + [ts[i].id];
      }
      assert recent + Ids([]) == recent;
    }

    /** ApplyConsensusChange */
    method ApplyConsensusChange(reverted: Processed, applied: Processed) returns (ghost mid: Index)
      requires Indexed() && Distinct(RemoveEach(recent, Ids(reverted.txns)) + Ids(applied.txns))
      modifies this
      ensures Indexed()
      ensures outputs == PutIn(TakeOut(old(outputs), reverted.outputs), applied.outputs)
      ensures recent == RemoveEach(old(recent), Ids(reverted.txns)) + Ids(applied.txns)
      ensures txns == AddTxns(DropTxns(old(txns), reverted.txns), applied.txns)
      ensures RevertedTo(mid, old(addrIndex), reverted.addrTxns, {}) && AppliedTo(addrIndex, mid, applied.addrTxns, {})
      ensures height == old(height) + applied.blockCount - reverted.blockCount
    {
      RevertOutputs(reverted.outputs);
      RevertTxns(reverted.txns);
      addrIndex := RevertAddresses(addrIndex, reverted.addrTxns);
      mid := addrIndex;
      ApplyOutputs(applied.outputs);
      ApplyTxns(applied.txns);
      addrIndex := ApplyAddresses(addrIndex, applied.addrTxns);
      height := height + applied.blockCount - reverted.blockCount;
    }

    /** A consensus change, filtered and applied: the store keeps up with the chain. */
    method Follow(cc: Change, owner: set<Address>, ghost of: OutputId -> Output, ghost u: Outputs, ghost blocks: seq<Block>)
      requires Tracks(owner, u, blocks) && Consistent(of, u, cc.diffs) && Alternating(u, cc.diffs) && ValidChange(blocks, cc)
      modifies this
      ensures Tracks(owner, Fold(u, cc.diffs), NewBlocks(blocks, cc))
    {
      var reverted, applied := FilterConsensusChange(cc, owner, of);
      RelevantIds(Flat(cc.reverted), owner);
      RelevantIds(Flat(cc.applied), owner);
      IndexTracked(blocks, cc, owner);
      StoredTracked(blocks, cc, owner, txns);
      ghost var before := addrIndex;
      ghost var mid := ApplyConsensusChange(reverted, applied);
      OutputsTracked(of, u, cc.diffs, owner, reverted.outputs, applied.outputs, outputs);
      AddressesTracked(blocks, cc, owner, before, reverted.addrTxns, applied.addrTxns, mid, addrIndex);
    }

    /** Transactions: the last n of the recent index, or all of them. */
    method Transactions(n: int) returns (ids: seq<TxnId>)
      ensures if 0 <= n <= |recent| then |ids| == n else ids == recent
      ensures |ids| <= |recent| && ids == recent[|recent| - |ids|..]
    {
      var k := if n > |recent| || n < 0 then |recent| else n;
      return recent[|recent| - k..];
    }

    /** TransactionsByAddress: the last n at the address, or all of them. */
    method TransactionsByAddress(a: Address, n: int, ghost owner: set<Address>, ghost u: Outputs, ghost blocks: seq<Block>)
      returns (ids: seq<TxnId>)
      requires Tracks(owner, u, blocks)
      ensures var all := if a in owner then Touching(Flat(blocks), {a}) else [];
        |ids| == (if 0 <= n <= |all| then n else |all|) && ids == all[|all| - |ids|..]
    {
      var all := Get(addrIndex, a);
      var k := if n > |all| || n < 0 then |all| else n;
      return all[|all| - k..];
    }
  }

  /** The outputs and blocks after a run of changes. */
  ghost function FoldAll(u: Outputs, ccs: seq<Change>): Outputs
    decreases |ccs|
  {
    if |ccs| == 0 then u else FoldAll(Fold(u, ccs[0].diffs), ccs[1..])
  }

  ghost predicate ValidChanges(of: OutputId -> Output, u: Outputs, blocks: seq<Block>, ccs: seq<Change>)
    decreases |ccs|
  {
    |ccs| == 0 ||
    (&& Consistent(of, u, ccs[0].diffs) && Alternating(u, ccs[0].diffs) && ValidChange(blocks, ccs[0])
     && ValidChanges(of, Fold(u, ccs[0].diffs), NewBlocks(blocks, ccs[0]), ccs[1..]))
  }

  ghost function BlocksAfter(of: OutputId -> Output, u: Outputs, blocks: seq<Block>, ccs: seq<Change>): seq<Block>
    requires ValidChanges(of, u, blocks, ccs)
    decreases |ccs|
  {
    if |ccs| == 0 then blocks else BlocksAfter(of, Fold(u, ccs[0].diffs), NewBlocks(blocks, ccs[0]), ccs[1..])
  }

  /** A new store that follows any run of changes from the empty chain. */
  method FollowChain(ccs: seq<Change>, owner: set<Address>, ghost of: OutputId -> Output) returns (store: EphemeralStore)
    requires ValidChanges(of, map[], [], ccs)
    ensures fresh(store) && store.Tracks(owner, FoldAll(map[], ccs), BlocksAfter(of, map[], [], ccs))
  {
    store := new EphemeralStore();
    ghost var u: Outputs, blocks: seq<Block>, left := map[], [], ccs;
    for i := 0 to |ccs|
      invariant fresh(store) && store.Tracks(owner, u, blocks)
      invariant left == ccs[i..] && ValidChanges(of, u, blocks, left)
      invariant FoldAll(u, left) == FoldAll(map[], ccs) && BlocksAfter(of, u, blocks, left) == BlocksAfter(of, map[], [], ccs)
    {
      store.Follow(ccs[i], owner, of, u, blocks);
      u, blocks, left := Fold(u, ccs[i].diffs), NewBlocks(blocks, ccs[i]), left[1..];
    }
  }
}
