/** Following the chain (wallet/wallet.go, FilterConsensusChange; wallet/ephemeralstore.go,
    ApplyConsensusChange): the store always has exactly the owner's part of the chain. */
module Wallet {
  import opened Chain

  /** A ProcessedConsensusChange, without block rewards and file contracts. */
  datatype Processed = Processed(outputs: seq<Diff>, txns: seq<Txn>, addrTxns: map<Address, seq<TxnId>>, blockCount: nat)

  // ---------- filtering outputs ----------

  ghost predicate DistinctOutputs(out: seq<Diff>) {
    forall i, j :: 0 <= i < j < |out| ==> out[i].id != out[j].id
  }

  /** The surviving output ids of the diffs are listed, each once, with its first direction. */
  ghost predicate Listed(out: seq<Diff>, diffs: seq<Diff>, owner: set<Address>, of: OutputId -> Output, apply: bool) {
    && DistinctOutputs(out)
    && (forall i :: 0 <= i < |out| ==> Kept(diffs, owner, of, apply, out[i].id) && out[i].output == of(out[i].id))
    && (forall id :: Kept(diffs, owner, of, apply, id) ==> exists i :: 0 <= i < |out| && out[i].id == id)
  }

  ghost predicate Kept(diffs: seq<Diff>, owner: set<Address>, of: OutputId -> Output, apply: bool, id: OutputId) {
    Odd(diffs, id) && of(id).addr in owner && (FirstApplies(diffs, id) <==> apply)
  }

  /** The ids that appear an odd number of times. */
  method Surviving(diffs: seq<Diff>) returns (ids: set<OutputId>)
    ensures forall id :: id in ids <==> Odd(diffs, id)
  {
    ids := {};
    for k := 0 to |diffs|
      invariant forall id :: id in ids <==> Odd(diffs[..k], id)
    {
      var d := diffs[k];
      assert diffs[..k + 1] == diffs[..k] + [d];
      forall id ensures Odd(diffs[..k + 1], id) <==> (Odd(diffs[..k], id) != (d.id == id)) {
        OddSnoc(diffs[..k], d, id);
      }
      if d.id !in ids {
        ids := ids + {d.id};
      } else {
        ids := ids - {d.id};
      }
    }
    assert diffs[..|diffs|] == diffs;
  }

  /** An id that has not appeared before position k has its first diff there or later. */
  lemma {:induction false} FirstAt(diffs: seq<Diff>, k: nat)
    requires k < |diffs| && forall i :: 0 <= i < k ==> diffs[i].id != diffs[k].id
    ensures FirstApplies(diffs, diffs[k].id) <==> diffs[k].apply
    decreases k
  {
    if k > 0 {
      assert diffs[1..][k - 1] == diffs[k];
      FirstAt(diffs[1..], k - 1);
    }
  }

  /** No output is listed twice, nor one that is still to come. */
  ghost predicate Passed(out: seq<Diff>, ids: set<OutputId>) {
    DistinctOutputs(out) && forall i :: 0 <= i < |out| ==> out[i].id !in ids
  }

  lemma PassedNext(out: seq<Diff>, ids: set<OutputId>, d: Diff)
    requires Passed(out, ids)
    ensures Passed(out, ids - {d.id}) && (d.id in ids ==> Passed(out + [d], ids - {d.id}))
  {
  }

  /** What the loop over the diffs has listed after k of them. */
  ghost predicate ListedSoFar(out: seq<Diff>, diffs: seq<Diff>, owner: set<Address>, of: OutputId -> Output, apply: bool, k: nat)
    requires k <= |diffs|
  {
    && (forall i :: 0 <= i < |out| ==> Kept(diffs, owner, of, apply, out[i].id) && out[i].output == of(out[i].id))
    && (forall id :: Kept(diffs, owner, of, apply, id) && Appears(diffs[..k], id) ==> exists i :: 0 <= i < |out| && out[i].id == id)
  }

  lemma AppearsSnoc(diffs: seq<Diff>, k: nat, id: OutputId)
    requires k < |diffs|
    ensures Appears(diffs[..k + 1], id) <==> Appears(diffs[..k], id) || diffs[k].id == id
  {
    if Appears(diffs[..k], id) {
      var i :| 0 <= i < k && diffs[..k][i].id == id;
      assert diffs[..k + 1][i].id == id;
    }
    if diffs[k].id == id {
      assert diffs[..k + 1][k].id == id;
    }
    if Appears(diffs[..k + 1], id) && diffs[k].id != id {
      var i :| 0 <= i < k + 1 && diffs[..k + 1][i].id == id;
      assert diffs[..k][i].id == id;
    }
  }

  /** One more diff, listed or passed over. */
  lemma ListStep(out: seq<Diff>, diffs: seq<Diff>, owner: set<Address>, of: OutputId -> Output, apply: bool, k: nat, takes: bool)
    requires k < |diffs| && ListedSoFar(out, diffs, owner, of, apply, k) && diffs[k].output == of(diffs[k].id)
    requires takes ==> Kept(diffs, owner, of, apply, diffs[k].id)
    requires !takes && Kept(diffs, owner, of, apply, diffs[k].id) ==> Appears(diffs[..k], diffs[k].id)
    ensures ListedSoFar(if takes then out + [diffs[k]] else out, diffs, owner, of, apply, k + 1)
  {
    var out' := if takes then out + [diffs[k]] else out;
    forall id | Kept(diffs, owner, of, apply, id) && Appears(diffs[..k + 1], id) ensures exists i :: 0 <= i < |out'| && out'[i].id == id {
      AppearsSnoc(diffs, k, id);
      StillListed(out, out', diffs[k], takes, id, Appears(diffs[..k], id));
    }
  }

  /** An id listed before is listed still, and the one taken is listed now. */
  lemma StillListed(out: seq<Diff>, out': seq<Diff>, d: Diff, takes: bool, id: OutputId, before: bool)
    requires out' == (if takes then out + [d] else out) && (before ==> exists i :: 0 <= i < |out| && out[i].id == id)
    requires !before ==> takes && d.id == id
    ensures exists i :: 0 <= i < |out'| && out'[i].id == id
  {
    if before {
      var i :| 0 <= i < |out| && out[i].id == id;
      assert out'[i].id == id;
    } else {
      assert out'[|out|].id == id;
    }
  }

  /** The ids still to come are those that survive and have not appeared. */
  ghost predicate ToCome(ids: set<OutputId>, diffs: seq<Diff>, k: nat)
    requires k <= |diffs|
  {
    forall id :: id in ids <==> Odd(diffs, id) && !Appears(diffs[..k], id)
  }

  lemma ToComeNext(ids: set<OutputId>, diffs: seq<Diff>, k: nat)
    requires k < |diffs| && ToCome(ids, diffs, k)
    ensures ToCome(ids - {diffs[k].id}, diffs, k + 1)
    ensures diffs[k].id in ids ==> (FirstApplies(diffs, diffs[k].id) <==> diffs[k].apply)
  {
    forall id ensures Appears(diffs[..k + 1], id) <==> Appears(diffs[..k], id) || diffs[k].id == id {
      AppearsSnoc(diffs, k, id);
    }
    if diffs[k].id in ids {
      assert forall i :: 0 <= i < k ==> diffs[..k][i].id != diffs[k].id;
      FirstAt(diffs, k);
    }
  }

  /** One diff of one direction: taken if it is to come, owned and goes that way. */
  lemma FilterStep(out: seq<Diff>, ids: set<OutputId>, diffs: seq<Diff>, owner: set<Address>, of: OutputId -> Output, apply: bool, k: nat)
    requires k < |diffs| && ListedSoFar(out, diffs, owner, of, apply, k) && Passed(out, ids) && ToCome(ids, diffs, k)
    requires diffs[k].output == of(diffs[k].id)
    ensures var d := diffs[k];
      var next := if d.id in ids && d.output.addr in owner && d.apply == apply then out + [d] else out;
      ListedSoFar(next, diffs, owner, of, apply, k + 1) && Passed(next, ids - {d.id})
  {
    var d := diffs[k];
    ToComeNext(ids, diffs, k);
    PassedNext(out, ids, d);
    ListStep(out, diffs, owner, of, apply, k, d.id in ids && d.output.addr in owner && d.apply == apply);
  }

  lemma AllListed(out: seq<Diff>, ids: set<OutputId>, diffs: seq<Diff>, owner: set<Address>, of: OutputId -> Output, apply: bool)
    requires ListedSoFar(out, diffs, owner, of, apply, |diffs|) && Passed(out, ids)
    ensures Listed(out, diffs, owner, of, apply)
  {
    assert diffs[..|diffs|] == diffs;
    forall id | Odd(diffs, id) ensures Appears(diffs, id) {
      OddAppears(diffs, id);
    }
  }

  /** FilterConsensusChange's outputs: those whose diffs do not cancel out, each once. */
  method FilterOutputs(diffs: seq<Diff>, owner: set<Address>, ghost of: OutputId -> Output)
    returns (reverted: seq<Diff>, applied: seq<Diff>)
    requires forall i :: 0 <= i < |diffs| ==> diffs[i].output == of(diffs[i].id)
    ensures Listed(reverted, diffs, owner, of, false) && Listed(applied, diffs, owner, of, true)
  {
    var ids := Surviving(diffs);
    reverted, applied := [], [];
    for k := 0 to |diffs|
      invariant ToCome(ids, diffs, k) && Passed(reverted, ids) && Passed(applied, ids)
      invariant ListedSoFar(reverted, diffs, owner, of, false, k) && ListedSoFar(applied, diffs, owner, of, true, k)
    {
      var d := diffs[k];
      FilterStep(reverted, ids, diffs, owner, of, false, k);
      FilterStep(applied, ids, diffs, owner, of, true, k);
      ToComeNext(ids, diffs, k);
      if d.id in ids && d.output.addr in owner {
        if d.apply {
          applied := applied + [d];
        } else {
          reverted := reverted + [d];
        }
      }
      ids := ids - {d.id};
    }
    AllListed(reverted, ids, diffs, owner, of, false);
    AllListed(applied, ids, diffs, owner, of, true);
  }

  /** Taking out what was reverted and putting in what was applied leaves the owner's part of the
      outputs that the diffs, one by one, leave. */
  lemma OutputsTracked(of: OutputId -> Output, u: Outputs, diffs: seq<Diff>, owner: set<Address>, reverted: seq<Diff>,
    applied: seq<Diff>, after: Outputs)
    requires Consistent(of, u, diffs) && Alternating(u, diffs)
    requires Listed(reverted, diffs, owner, of, false) && Listed(applied, diffs, owner, of, true)
    requires after == PutIn(TakeOut(Owned(u, owner), reverted), applied)
    ensures after == Owned(Fold(u, diffs), owner)
  {
    var v := Fold(u, diffs);
    forall id ensures (id in after <==> id in Owned(v, owner)) && (id in after ==> after[id] == of(id)) && (id in v ==> v[id] == of(id)) {
      FoldParity(of, u, diffs, id);
      if Odd(diffs, id) {
        OddAppears(diffs, id);
      }
      TakeOutHas(Owned(u, owner), reverted, id);
      PutInHas(TakeOut(Owned(u, owner), reverted), applied, id);
      if Kept(diffs, owner, of, true, id) {
        assert exists i :: 0 <= i < |applied| && applied[i].id == id;
      }
      if Kept(diffs, owner, of, false, id) {
        assert exists i :: 0 <= i < |reverted| && reverted[i].id == id;
      }
    }
  }

  function TakeOut(m: Outputs, out: seq<Diff>): Outputs
    decreases |out|
  {
    if |out| == 0 then m else TakeOut(m - {out[0].id}, out[1..])
  }

  function PutIn(m: Outputs, out: seq<Diff>): Outputs
    decreases |out|
  {
    if |out| == 0 then m else PutIn(m[out[0].id := out[0].output], out[1..])
  }

  lemma {:induction false} TakeOutHas(m: Outputs, out: seq<Diff>, id: OutputId)
    ensures id in TakeOut(m, out) <==> id in m && !Appears(out, id)
    ensures id in TakeOut(m, out) ==> TakeOut(m, out)[id] == m[id]
    decreases |out|
  {
    if |out| > 0 {
      TakeOutHas(m - {out[0].id}, out[1..], id);
      AppearsCons(out, id);
    }
  }

  lemma {:induction false} PutInHas(m: Outputs, out: seq<Diff>, id: OutputId)
    ensures id in PutIn(m, out) <==> id in m || Appears(out, id)
    ensures id in PutIn(m, out) && !Appears(out, id) ==> PutIn(m, out)[id] == m[id]
    ensures Appears(out, id) ==> exists i :: 0 <= i < |out| && out[i].id == id && PutIn(m, out)[id] == out[i].output
    decreases |out|
  {
    if |out| > 0 {
      var next := m[out[0].id := out[0].output];
      PutInHas(next, out[1..], id);
      AppearsCons(out, id);
      if Appears(out[1..], id) {
        var i :| 0 <= i < |out[1..]| && out[1..][i].id == id && PutIn(next, out[1..])[id] == out[1..][i].output;
        assert out[i + 1] == out[1..][i];
      }
    }
  }

  lemma AppearsCons(out: seq<Diff>, id: OutputId)
    requires |out| > 0
    ensures Appears(out, id) <==> out[0].id == id || Appears(out[1..], id)
  {
    if Appears(out, id) && out[0].id != id {
      var i :| 0 <= i < |out| && out[i].id == id;
      assert out[1..][i - 1].id == id;
    }
    if Appears(out[1..], id) {
      var i :| 0 <= i < |out[1..]| && out[1..][i].id == id;
      assert out[i + 1].id == id;
    }
  }

  // ---------- filtering transactions ----------

  function Get(m: map<Address, seq<TxnId>>, a: Address): seq<TxnId> {
    if a in m then m[a] else []
  }

  /** The owner's transactions. */
  function Relevant(txns: seq<Txn>, owner: set<Address>): seq<Txn> {
    if |txns| == 0 then [] else (if txns[0].addrs !! owner then [] else [txns[0]]) + Relevant(txns[1..], owner)
  }

  /** The owner's transactions by address. */
  ghost predicate ByAddress(m: map<Address, seq<TxnId>>, txns: seq<Txn>, owner: set<Address>) {
    && m.Keys <= owner
    && forall a :: a in owner ==> Get(m, a) == Touching(txns, {a})
  }

  lemma {:induction false} RelevantSnoc(txns: seq<Txn>, t: Txn, owner: set<Address>)
    ensures Relevant(txns + [t], owner) == Relevant(txns, owner) + if t.addrs !! owner then [] else [t]
  {
    if |txns| > 0 {
      assert (txns + [t])[1..] == txns[1..] + [t];
      RelevantSnoc(txns[1..], t, owner);
    }
  }

  lemma ByAddressSnoc(m: map<Address, seq<TxnId>>, txns: seq<Txn>, t: Txn, owner: set<Address>, m': map<Address, seq<TxnId>>)
    requires ByAddress(m, txns, owner)
    requires m' == map a | a in m.Keys + t.addrs * owner :: Get(m, a) + if a in t.addrs * owner then [t.id] else []
    ensures ByAddress(m', txns + [t], owner)
  {
    forall a | a in owner ensures Get(m', a) == Touching(txns + [t], {a}) {
      TouchingConcat(txns, [t], {a});
      assert Touching([t], {a}) == if t.addrs !! {a} then [] else [t.id];
      assert t.addrs !! {a} <==> a !in t.addrs;
    }
  }

  /** One transaction of processTxns. */
  method FilterTxn(t: Txn, owner: set<Address>, txns: seq<Txn>, m: map<Address, seq<TxnId>>, ghost done: seq<Txn>)
    returns (txns': seq<Txn>, m': map<Address, seq<TxnId>>)
    requires txns == Relevant(done, owner) && ByAddress(m, done, owner)
    ensures txns' == Relevant(done + [t], owner) && ByAddress(m', done + [t], owner)
  {
    var addrs := t.addrs * owner;
    RelevantSnoc(done, t, owner);
    m' := map a | a in m.Keys + addrs :: Get(m, a) + if a in addrs then [t.id] else [];
    ByAddressSnoc(m, done, t, owner, m');
    txns' := if addrs == {} then txns else txns + [t];
  }

  /** processTxns on one block. */
  method FilterBlock(block: Block, owner: set<Address>, txns: seq<Txn>, m: map<Address, seq<TxnId>>, ghost done: seq<Txn>)
    returns (txns': seq<Txn>, m': map<Address, seq<TxnId>>)
    requires txns == Relevant(done, owner) && ByAddress(m, done, owner)
    ensures txns' == Relevant(done + block, owner) && ByAddress(m', done + block, owner)
  {
    txns', m' := txns, m;
    ghost var sofar := done;
    assert sofar == done + block[..0];
    for i := 0 to |block|
      invariant sofar == done + block[..i]
      invariant txns' == Relevant(sofar, owner) && ByAddress(m', sofar, owner)
    {
      txns', m' := FilterTxn(block[i], owner, txns', m', sofar);
      assert block[..i + 1] == block[..i] + [block[i]];
      sofar := sofar + [block[i]];
    }
    assert block[..|block|] == block;
  }

  /** processTxns, over the blocks in the order given. */
  method FilterTxns(blocks: seq<Block>, owner: set<Address>) returns (txns: seq<Txn>, addrTxns: map<Address, seq<TxnId>>)
    ensures txns == Relevant(Flat(blocks), owner) && ByAddress(addrTxns, Flat(blocks), owner)
  {
    txns, addrTxns := [], map[];
    ghost var done: seq<Txn>, left: seq<Txn> := [], Flat(blocks);
    for b := 0 to |blocks|
      invariant left == Flat(blocks[b..]) && done + left == Flat(blocks)
      invariant txns == Relevant(done, owner) && ByAddress(addrTxns, done, owner)
    {
      FlatStep(blocks, b, done);
      txns, addrTxns := FilterBlock(blocks[b], owner, txns, addrTxns, done);
      done, left := done + blocks[b], Flat(blocks[b + 1..]);
    }
    assert left == [] && done + left == done;
  }

  lemma FlatStep(blocks: seq<Block>, b: nat, done: seq<Txn>)
    requires b < |blocks|
    ensures done + Flat(blocks[b..]) == (done + blocks[b]) + Flat(blocks[b + 1..])
  {
    assert blocks[b..][1..] == blocks[b + 1..];
  }

  /** FilterConsensusChange */
  method FilterConsensusChange(cc: Change, owner: set<Address>, ghost of: OutputId -> Output)
    returns (reverted: Processed, applied: Processed)
    requires forall i :: 0 <= i < |cc.diffs| ==> cc.diffs[i].output == of(cc.diffs[i].id)
    ensures Listed(reverted.outputs, cc.diffs, owner, of, false) && Listed(applied.outputs, cc.diffs, owner, of, true)
    ensures reverted.txns == Relevant(Flat(cc.reverted), owner) && ByAddress(reverted.addrTxns, Flat(cc.reverted), owner)
    ensures applied.txns == Relevant(Flat(cc.applied), owner) && ByAddress(applied.addrTxns, Flat(cc.applied), owner)
    ensures reverted.blockCount == |cc.reverted| && applied.blockCount == |cc.applied|
  {
    var r, a := FilterOutputs(cc.diffs, owner, of);
    var rt, ra := FilterTxns(cc.reverted, owner);
    var at, aa := FilterTxns(cc.applied, owner);
    return Processed(r, rt, ra, |cc.reverted|), Processed(a, at, aa, |cc.applied|);
  }
}
