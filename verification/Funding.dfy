/** Choosing inputs (wallet/builder.go: FundAtLeast, FundTransaction; renter/proto/formcontract.go:
    fundSiacoins). */
module Funding {

  /** A spendable output: its id and its value. */
  datatype Input = Input(id: nat, value: nat)

  /** BytesPerInput */
  const BYTES_PER_INPUT := 241

  function Sum(inputs: seq<Input>): nat {
    if |inputs| == 0 then 0 else Sum(inputs[..|inputs| - 1]) + inputs[|inputs| - 1].value
  }

  lemma {:induction false} SumPrefix(inputs: seq<Input>, i: nat, j: nat)
    requires i <= j <= |inputs|
    ensures Sum(inputs[..i]) <= Sum(inputs[..j])
    decreases j
  {
    if i < j {
      assert inputs[..j][..j - 1] == inputs[..j - 1];
      SumPrefix(inputs, i, j - 1);
    }
  }

  // ---------- FundAtLeast ----------

  /** k is the length of the shortest non-empty prefix worth at least target. */
  ghost predicate Shortest(inputs: seq<Input>, target: nat, k: nat) {
    && 0 < k <= |inputs| && Sum(inputs[..k]) >= target
    && forall j :: 0 < j < k ==> Sum(inputs[..j]) < target
  }

  /** FundAtLeast: the shortest non-empty prefix that is enough, whatever the amount; with no
      inputs, only an amount of zero can be met. */
  method FundAtLeast(amount: nat, inputs: seq<Input>) returns (used: seq<Input>, change: nat, ok: bool)
    ensures ok <==> Sum(inputs) >= amount
    ensures ok ==> |used| <= |inputs| && used == inputs[..|used|] && Sum(used) == amount + change
    ensures ok && |inputs| > 0 ==> Shortest(inputs, amount, |used|)
    ensures |inputs| == 0 || !ok ==> used == [] && change == 0
  {
    var sum := 0;
    for i := 0 to |inputs|
      invariant sum == Sum(inputs[..i])
      invariant forall j :: 0 < j <= i ==> Sum(inputs[..j]) < amount
    {
      assert inputs[..i + 1][..i] == inputs[..i];
      sum := sum + inputs[i].value;
      if sum >= amount {
        SumPrefix(inputs, i + 1, |inputs|);
        assert inputs[..|inputs|] == inputs;
        return inputs[..i + 1], sum - amount, true;
      }
    }
    assert inputs[..|inputs|] == inputs;
    return [], 0, amount == 0;
  }

  // ---------- FundTransaction ----------

  /** The fee for so many inputs. */
  function Fee(feePerByte: nat, inputs: nat): nat {
    if inputs == 0 then 0 else Fee(feePerByte, inputs - 1) + feePerByte * BYTES_PER_INPUT
  }

  lemma {:induction false} FeeIsProduct(feePerByte: nat, inputs: nat)
    ensures Fee(feePerByte, inputs) == feePerByte * BYTES_PER_INPUT * inputs
  {
    if inputs > 0 {
      FeeIsProduct(feePerByte, inputs - 1);
      assert feePerByte * BYTES_PER_INPUT * inputs == feePerByte * BYTES_PER_INPUT * (inputs - 1) + feePerByte * BYTES_PER_INPUT;
    }
  }

  lemma {:induction false} FeeGrows(feePerByte: nat, i: nat, j: nat)
    requires i <= j
    ensures Fee(feePerByte, i) <= Fee(feePerByte, j)
    decreases j
  {
    if i < j {
      FeeGrows(feePerByte, i, j - 1);
    }
  }

  /** The first k inputs pay for the amount and for themselves. */
  ghost predicate Pays(inputs: seq<Input>, amount: nat, feePerByte: nat, k: nat) {
    0 < k <= |inputs| && Sum(inputs[..k]) >= amount + Fee(feePerByte, k)
  }

  /** Whatever pays for itself has at least as many inputs as the amount so far needs. */
  lemma StaysBelow(inputs: seq<Input>, amount: nat, feePerByte: nat, prev: nat, k: nat, j: nat)
    requires Pays(inputs, amount, feePerByte, j) && prev <= j && Shortest(inputs, amount + Fee(feePerByte, prev), k)
    ensures k <= j
  {
    FeeGrows(feePerByte, prev, j);
  }

  lemma NextIsMore(inputs: seq<Input>, amount: nat, feePerByte: nat, prev: nat, k: nat, next: nat)
    requires prev <= k && Shortest(inputs, amount + Fee(feePerByte, prev), k) && Shortest(inputs, amount + Fee(feePerByte, k), next)
    ensures k <= next
  {
    FeeGrows(feePerByte, prev, k);
  }

  /** FundTransaction: for non-empty inputs, the shortest non-empty prefix that covers the amount and
      its own fee, or a failure when there is none. */
  method FundTransaction(amount: nat, feePerByte: nat, inputs: seq<Input>) returns (used: seq<Input>, fee: nat, change: nat, ok: bool)
    ensures ok ==> |used| <= |inputs| && used == inputs[..|used|] && Sum(used) == amount + fee + change
    ensures ok ==> fee == feePerByte * BYTES_PER_INPUT * |used|
    ensures |inputs| > 0 && ok ==> Pays(inputs, amount, feePerByte, |used|)
    ensures |inputs| > 0 && ok ==> forall j :: 0 < j < |used| ==> !Pays(inputs, amount, feePerByte, j)
    ensures |inputs| > 0 && !ok ==> forall j :: !Pays(inputs, amount, feePerByte, j)
    ensures |inputs| == 0 ==> (ok <==> amount == 0)
  {
    used, change, ok := FundAtLeast(amount, inputs);
    if !ok {
      NeverPays(inputs, amount, feePerByte, 0);
      return [], 0, 0, false;
    }
    var n := |used|;
    ghost var prev: nat := 0;
    while true
      invariant n <= |inputs| && prev <= n
      invariant |inputs| == 0 ==> n == 0 && amount == 0
      invariant |inputs| > 0 ==> Shortest(inputs, amount + Fee(feePerByte, prev), n)
      invariant forall j :: Pays(inputs, amount, feePerByte, j) ==> n <= j
      decreases |inputs| - n
    {
      fee := feePerByte * BYTES_PER_INPUT * n;
      FeeIsProduct(feePerByte, n);
      used, change, ok := FundAtLeast(amount + fee, inputs);
      if !ok {
        NeverPays(inputs, amount, feePerByte, n);
        return [], 0, 0, false;
      } else if |used| == n {
        return;
      }
      NextIsMore(inputs, amount, feePerByte, prev, n, |used|);
      forall j | Pays(inputs, amount, feePerByte, j) ensures |used| <= j {
        StaysBelow(inputs, amount, feePerByte, n, |used|, j);
      }
      prev, n := n, |used|;
    }
  }

  /** When not even everything covers the fee for n inputs, no n or more inputs pay. */
  lemma NeverPays(inputs: seq<Input>, amount: nat, feePerByte: nat, n: nat)
    requires Sum(inputs) < amount + Fee(feePerByte, n)
    ensures forall j :: n <= j ==> !Pays(inputs, amount, feePerByte, j)
  {
    forall j | n <= j ensures !Pays(inputs, amount, feePerByte, j) {
      FeeGrows(feePerByte, n, j);
      if j <= |inputs| {
        SumPrefix(inputs, j, |inputs|);
        assert inputs[..|inputs|] == inputs;
      }
    }
  }

  // ---------- fundSiacoins ----------

  /** Smallest first. */
  predicate Ascending(s: seq<Input>) {
    forall i, j :: 0 <= i < j < |s| ==> s[i].value <= s[j].value
  }

  function InsertSorted(s: seq<Input>, x: Input): seq<Input> {
    if |s| == 0 || x.value <= s[0].value then [x] + s else [s[0]] + InsertSorted(s[1..], x)
  }

  function Sorted(s: seq<Input>): seq<Input> {
    if |s| == 0 then [] else InsertSorted(Sorted(s[1..]), s[0])
  }

  predicate AllAtLeast(s: seq<Input>, v: nat) {
    forall i :: 0 <= i < |s| ==> v <= s[i].value
  }

  lemma AscendingCons(x: Input, s: seq<Input>)
    ensures Ascending([x] + s) <==> AllAtLeast(s, x.value) && Ascending(s)
  {
    var t := [x] + s;
    if Ascending(t) {
      forall i | 0 <= i < |s| ensures x.value <= s[i].value {
        assert t[0].value <= t[i + 1].value;
      }
      forall i, j | 0 <= i < j < |s| ensures s[i].value <= s[j].value {
        assert t[i + 1].value <= t[j + 1].value;
      }
    }
  }

  lemma {:induction false} InsertSortedKeeps(s: seq<Input>, x: Input, v: nat)
    requires Ascending(s) && AllAtLeast(s, v) && v <= x.value
    ensures Ascending(InsertSorted(s, x)) && AllAtLeast(InsertSorted(s, x), v)
    decreases |s|
  {
    AscendingCons(x, s);
    if |s| > 0 {
      assert s == [s[0]] + s[1..];
      AscendingCons(s[0], s[1..]);
      if x.value > s[0].value {
        InsertSortedKeeps(s[1..], x, s[0].value);
        AscendingCons(s[0], InsertSorted(s[1..], x));
      }
    }
  }

  lemma {:induction false} InsertHas(s: seq<Input>, x: Input)
    ensures multiset(InsertSorted(s, x)) == multiset(s) + multiset{x}
  {
    if |s| > 0 && x.value > s[0].value {
      InsertHas(s[1..], x);
      assert s == [s[0]] + s[1..];
    }
  }

  lemma {:induction false} SortedKeeps(s: seq<Input>)
    ensures Ascending(Sorted(s)) && multiset(Sorted(s)) == multiset(s)
  {
    if |s| > 0 {
      SortedKeeps(s[1..]);
      InsertSortedKeeps(Sorted(s[1..]), s[0], 0);
      InsertHas(Sorted(s[1..]), s[0]);
      assert s == [s[0]] + s[1..];
    }
  }

  lemma {:induction false} SumConcat(a: seq<Input>, b: seq<Input>)
    ensures Sum(a + b) == Sum(a) + Sum(b)
    decreases |b|
  {
    if |b| == 0 {
      assert a + b == a;
    } else {
      assert (a + b)[..|a + b| - 1] == a + b[..|b| - 1];
      SumConcat(a, b[..|b| - 1]);
    }
  }

  lemma SumMiddle(l: seq<Input>, x: Input, r: seq<Input>)
    ensures Sum(l + [x] + r) == Sum(l + r) + x.value
    ensures multiset(l + [x] + r) == multiset(l + r) + multiset{x}
  {
    SumConcat(l, [x]);
    SumConcat(l + [x], r);
    SumConcat(l, r);
    SumOne(x);
  }

  lemma SumOne(x: Input)
    ensures Sum([x]) == x.value
  {
    assert [x][..0] == [];
  }

  /** The sum does not depend on the order. */
  lemma {:induction false} SumMultiset(a: seq<Input>, b: seq<Input>)
    requires multiset(a) == multiset(b)
    ensures Sum(a) == Sum(b)
    decreases |a|
  {
    assert |a| == |multiset(a)| == |multiset(b)| == |b|;
    if |a| > 0 {
      var x := a[0];
      assert x in multiset(b);
      var i :| 0 <= i < |b| && b[i] == x;
      var a', b' := [] + a[1..], b[..i] + b[i + 1..];
      Taken(a, [], x, a[1..]);
      Taken(b, b[..i], x, b[i + 1..]);
      SameRest(multiset(a'), multiset(b'), x);
      SumMultiset(a', b');
    }
  }

  lemma Taken(s: seq<Input>, l: seq<Input>, x: Input, r: seq<Input>)
    requires s == l + [x] + r
    ensures Sum(s) == Sum(l + r) + x.value && multiset(s) == multiset(l + r) + multiset{x} && |l + r| == |s| - 1
  {
    SumMiddle(l, x, r);
  }

  lemma SameRest(a: multiset<Input>, b: multiset<Input>, x: Input)
    requires a + multiset{x} == b + multiset{x}
    ensures a == b
  {
    assert a == (a + multiset{x}) - multiset{x} && b == (b + multiset{x}) - multiset{x};
  }

  datatype Funded = Funded(inputs: seq<Input>, change: nat) | InsufficientFunds

  /** fundSiacoins, once the outputs are shuffled: enough of them, then as many as possible of the
      smallest given back.  No input it keeps can be spared. */
  method FundSiacoins(amount: nat, outputs: seq<Input>) returns (r: Funded)
    ensures amount == 0 ==> r == Funded([], 0)
    ensures r.InsufficientFunds? <==> amount > Sum(outputs)
    ensures r.Funded? ==> Sum(r.inputs) == amount + r.change && multiset(r.inputs) <= multiset(outputs)
    ensures r.Funded? ==> forall i :: 0 <= i < |r.inputs| ==> Sum(r.inputs) - r.inputs[i].value < amount
  {
    if amount == 0 {
      return Funded([], 0);
    }
    var funding, extra, ok := FundAtLeast(amount, outputs);
    if !ok {
      return InsufficientFunds;
    }
    assert outputs == funding + outputs[|funding|..];
    var sum := amount + extra;
    SortedKeeps(funding);
    SumMultiset(funding, Sorted(funding));
    funding := Sorted(funding);
    SumTail(funding);
    while sum - funding[0].value >= amount
      invariant |funding| > 0 && sum == Sum(funding) >= amount && sum == funding[0].value + Sum(funding[1..])
      invariant Ascending(funding) && multiset(funding) <= multiset(outputs)
      decreases |funding|
    {
      assert funding == [funding[0]] + funding[1..];
      sum := sum - funding[0].value;
      funding := funding[1..];
      SumTail(funding);
    }
    return Funded(funding, sum - amount);
  }

  lemma SumTail(s: seq<Input>)
    ensures |s| > 0 ==> Sum(s) == s[0].value + Sum(s[1..])
    ensures |s| == 0 ==> Sum(s) == 0
  {
    if |s| > 0 {
      assert s == [s[0]] + s[1..];
      SumConcat([s[0]], s[1..]);
      assert Sum([s[0]]) == s[0].value;
    }
  }
}
