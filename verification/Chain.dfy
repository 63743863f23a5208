/** What a wallet has to know of the chain: the outputs that exist and the transactions in order,
    as consensus changes revise them (wallet/wallet.go, wallet/ephemeralstore.go). */
module Chain {

  type OutputId(==, !new)
  type TxnId(==, !new)
  type Address(==, !new)

  datatype Output = Output(value: nat, addr: Address)

  /** A SiacoinOutputDiff. */
  datatype Diff = Diff(id: OutputId, output: Output, apply: bool)

  /** A transaction: its id and every address that appears in it. */
  datatype Txn = Txn(id: TxnId, addrs: set<Address>)

  type Block = seq<Txn>

  datatype Change = Change(diffs: seq<Diff>, reverted: seq<Block>, applied: seq<Block>)

  // ---------- outputs ----------

  type Outputs = map<OutputId, Output>

  function ApplyDiff(u: Outputs, d: Diff): Outputs {
    if d.apply then u[d.id := d.output] else u - {d.id}
  }

  /** The diffs one by one. */
  function Fold(u: Outputs, diffs: seq<Diff>): Outputs
    decreases |diffs|
  {
    if |diffs| == 0 then u else Fold(ApplyDiff(u, diffs[0]), diffs[1..])
  }

  /** An id stands for one output, wherever it appears. */
  ghost predicate Consistent(of: OutputId -> Output, u: Outputs, diffs: seq<Diff>) {
    && (forall id :: id in u ==> u[id] == of(id))
    && (forall i :: 0 <= i < |diffs| ==> diffs[i].output == of(diffs[i].id))
  }

  /** An output is created only when it is missing and destroyed only when it is there. */
  predicate Alternating(u: Outputs, diffs: seq<Diff>)
    decreases |diffs|
  {
    |diffs| == 0 || (diffs[0].apply == (diffs[0].id !in u) && Alternating(ApplyDiff(u, diffs[0]), diffs[1..]))
  }

  /** The outputs at owned addresses. */
  function Owned(u: Outputs, owner: set<Address>): Outputs {
    map id | id in u && u[id].addr in owner :: u[id]
  }

  // ---------- which outputs survive ----------

  /** The id appears an odd number of times. */
  predicate Odd(diffs: seq<Diff>, id: OutputId) {
    |diffs| > 0 && (diffs[0].id == id) != Odd(diffs[1..], id)
  }

  predicate Appears(diffs: seq<Diff>, id: OutputId) {
    exists i :: 0 <= i < |diffs| && diffs[i].id == id
  }

  /** The id's first diff creates it. */
  predicate FirstApplies(diffs: seq<Diff>, id: OutputId) {
    |diffs| > 0 && (if diffs[0].id == id then diffs[0].apply else FirstApplies(diffs[1..], id))
  }

  lemma {:induction false} OddAppears(diffs: seq<Diff>, id: OutputId)
    requires Odd(diffs, id)
    ensures Appears(diffs, id)
  {
    if diffs[0].id != id {
      OddAppears(diffs[1..], id);
      var i :| 0 <= i < |diffs[1..]| && diffs[1..][i].id == id;
      assert diffs[i + 1].id == id;
    }
  }

  lemma {:induction false} OddSnoc(diffs: seq<Diff>, d: Diff, id: OutputId)
    ensures Odd(diffs + [d], id) <==> (Odd(diffs, id) != (d.id == id))
  {
    if |diffs| > 0 {
      assert (diffs + [d])[1..] == diffs[1..] + [d];
      OddSnoc(diffs[1..], d, id);
    }
  }

  /** Whether an output exists afterwards depends only on the parity of its diffs. */
  lemma {:induction false} FoldParity(of: OutputId -> Output, u: Outputs, diffs: seq<Diff>, id: OutputId)
    requires Consistent(of, u, diffs) && Alternating(u, diffs)
    ensures id in Fold(u, diffs) <==> ((id in u) != Odd(diffs, id))
    ensures id in Fold(u, diffs) ==> Fold(u, diffs)[id] == of(id)
    ensures Appears(diffs, id) ==> (FirstApplies(diffs, id) <==> id !in u)
    decreases |diffs|
  {
    if |diffs| > 0 {
      var next := ApplyDiff(u, diffs[0]);
      FoldParity(of, next, diffs[1..], id);
      if Appears(diffs, id) && diffs[0].id != id {
        var i :| 0 <= i < |diffs| && diffs[i].id == id;
        assert diffs[1..][i - 1].id == id;
      }
    }
  }

  // ---------- transactions ----------

  function Flat(blocks: seq<Block>): seq<Txn> {
    if |blocks| == 0 then [] else blocks[0] + Flat(blocks[1..])
  }

  /** The ids of the transactions that touch one of the addresses, in order. */
  function Touching(txns: seq<Txn>, addrs: set<Address>): seq<TxnId> {
    if |txns| == 0 then []
    else (if txns[0].addrs !! addrs then [] else [txns[0].id]) + Touching(txns[1..], addrs)
  }

  predicate Distinct<T(==)>(s: seq<T>) {
    forall i, j :: 0 <= i < j < |s| ==> s[i] != s[j]
  }

  ghost predicate DistinctIds(txns: seq<Txn>) {
    forall i, j :: 0 <= i < j < |txns| ==> txns[i].id != txns[j].id
  }

  lemma {:induction false} FlatConcat(a: seq<Block>, b: seq<Block>)
    ensures Flat(a + b) == Flat(a) + Flat(b)
    decreases |a|
  {
    if |a| == 0 {
      assert a + b == b;
    } else {
      assert (a + b)[1..] == a[1..] + b;
      FlatConcat(a[1..], b);
    }
  }

  lemma {:induction false} TouchingConcat(a: seq<Txn>, b: seq<Txn>, addrs: set<Address>)
    ensures Touching(a + b, addrs) == Touching(a, addrs) + Touching(b, addrs)
    decreases |a|
  {
    if |a| == 0 {
      assert a + b == b;
    } else {
      assert (a + b)[1..] == a[1..] + b;
      TouchingConcat(a[1..], b, addrs);
    }
  }

  /** An id is listed exactly when a transaction with it touches the addresses. */
  lemma {:induction false} TouchingHas(txns: seq<Txn>, addrs: set<Address>, id: TxnId)
    ensures id in Touching(txns, addrs) <==> exists t :: t in txns && t.id == id && !(t.addrs !! addrs)
    decreases |txns|
  {
    if |txns| > 0 {
      TouchingHas(txns[1..], addrs, id);
      assert txns == [txns[0]] + txns[1..];
    }
  }

  lemma {:induction false} TouchingDistinct(txns: seq<Txn>, addrs: set<Address>)
    requires DistinctIds(txns)
    ensures Distinct(Touching(txns, addrs))
    decreases |txns|
  {
    if |txns| > 0 {
      TouchingDistinct(txns[1..], addrs);
      TouchingHas(txns[1..], addrs, txns[0].id);
      var rest := Touching(txns[1..], addrs);
      forall t | t in txns[1..] ensures t.id != txns[0].id {
        var i :| 0 <= i < |txns[1..]| && txns[1..][i] == t;
        assert t == txns[i + 1];
      }
      assert txns[0].id !in rest;
    }
  }

  // ---------- removing ----------

  /** The sequence without the first x. */
  function RemoveFirst<T(==)>(s: seq<T>, x: T): seq<T> {
    if |s| == 0 then [] else if s[0] == x then s[1..] else [s[0]] + RemoveFirst(s[1..], x)
  }

  function RemoveEach<T(==)>(s: seq<T>, xs: seq<T>): seq<T>
    decreases |xs|
  {
    if |xs| == 0 then s else RemoveEach(RemoveFirst(s, xs[0]), xs[1..])
  }

  lemma {:induction false} RemoveFirstTail<T>(a: seq<T>, b: seq<T>, x: T)
    requires x !in a
    ensures RemoveFirst(a + b, x) == a + RemoveFirst(b, x)
  {
    if |a| == 0 {
      assert a + b == b;
    } else {
      assert (a + b)[1..] == a[1..] + b;
      RemoveFirstTail(a[1..], b, x);
    }
  }

  lemma {:induction false} RemoveFirstHas<T(!new)>(s: seq<T>, x: T)
    requires Distinct(s)
    ensures Distinct(RemoveFirst(s, x)) && forall y :: y in RemoveFirst(s, x) <==> y in s && y != x
  {
    if |s| > 0 {
      RemoveFirstHas(s[1..], x);
      var rest := RemoveFirst(s[1..], x);
      assert s == [s[0]] + s[1..] && s[0] !in s[1..];
      if s[0] != x {
        assert RemoveFirst(s, x) == [s[0]] + rest && s[0] !in rest;
        forall y ensures y in RemoveFirst(s, x) <==> y in s && y != x {
          assert y in RemoveFirst(s, x) <==> y == s[0] || y in rest;
        }
      }
    }
  }

  lemma SomeElement<T(!new)>(s: seq<T>)
    ensures s == [] || exists x :: x in s
  {
    if s != [] {
      assert s[0] in s;
    }
  }

  /** Removing every element of the tail, in any order, leaves what is before it. */
  lemma {:induction false} RemoveTail<T(!new)>(a: seq<T>, b: seq<T>, xs: seq<T>)
    requires Distinct(b) && (forall x :: x in xs ==> x !in a) && (forall x :: x in b ==> x in xs)
    ensures RemoveEach(a + b, xs) == a
    decreases |xs|
  {
    if |xs| == 0 {
      SomeElement(b);
      assert a + b == a;
    } else {
      var b' := RemoveFirst(b, xs[0]);
      RemoveFirstTail(a, b, xs[0]);
      RemoveFirstHas(b, xs[0]);
      assert forall x :: x in b' ==> x in xs[1..];
      RemoveTail(a, b', xs[1..]);
    }
  }
}
