/** File contracts and their revisions (renter/proto/session.go: updateRevisionOutputs,
    sufficientFunds; ghost/session.go). */
module Contracts {
  import opened MerkleTree
  import opened DiffProofs
  import opened Formation
  import opened Messages

  type ContractId(==, !new)

  /** The last revision number a contract can have. */
  const MAX_REVISION := 0xFFFF_FFFF_FFFF_FFFF

  /** valid: renter, host.  missed: renter, host, void. */
  datatype Revision = Revision(id: ContractId, number: nat, fileSize: nat, root: Hash,
                               valid: seq<Currency>, missed: seq<Currency>)

  predicate Balanced(rev: Revision) {
    BalancedOutputs(rev.valid, rev.missed)
  }

  function Total(rev: Revision): Currency
    requires Balanced(rev)
  {
    rev.valid[0] + rev.valid[1]
  }

  /** NumSectors */
  function NumSectors(rev: Revision): nat {
    rev.fileSize / SECTOR_SIZE
  }

  /** updateRevisionOutputs: cost from the renter to the host, or to the void if the proof is
      missed; collateral from the host to the void.  The requires are its subtractions. */
  function Pay(rev: Revision, cost: Currency, collateral: Currency): (r: Revision)
    requires |rev.valid| == 2 && |rev.missed| == 3
    requires cost <= rev.valid[0] && cost <= rev.missed[0] && collateral <= rev.missed[1]
    ensures |r.valid| == 2 && |r.missed| == 3
    ensures Balanced(rev) ==> Balanced(r) && Total(r) == Total(rev)
    ensures r.id == rev.id && r.number == rev.number && r.fileSize == rev.fileSize && r.root == rev.root
    ensures r.valid[0] + cost == rev.valid[0] && r.valid[1] == rev.valid[1] + cost && r.missed[0] + cost == rev.missed[0]
    ensures r.missed[1] + collateral == rev.missed[1] && r.missed[2] == rev.missed[2] + cost + collateral
  {
    rev.(valid := [rev.valid[0] - cost, rev.valid[1] + cost],
         missed := [rev.missed[0] - cost, rev.missed[1] - collateral, rev.missed[2] + cost + collateral])
  }

  /** One more revision of the same contract, which has paid the price: to the host, or to the void if the
      proof is missed, where the collateral then goes as well. */
  ghost predicate Paid(before: Revision, after: Revision, price: Currency, collateral: Currency) {
    && after.id == before.id && after.number == before.number + 1
    && |before.valid| == |after.valid| == 2 && |before.missed| == |after.missed| == 3
    && after.valid[0] + price == before.valid[0] && after.valid[1] == before.valid[1] + price
    && after.missed[0] + price == before.missed[0] && after.missed[1] + collateral == before.missed[1]
    && after.missed[2] == before.missed[2] + price + collateral
  }

  /** isRevisable and sufficientFunds: the price, and five times the host's base price to renew. */
  predicate Affords(rev: Revision, price: Currency, base: Currency)
    requires Balanced(rev)
  {
    rev.number < MAX_REVISION && price + 5 * base <= rev.valid[0]
  }

  /** The values a renter sends to have a revision changed. */
  datatype NewValues = NewValues(number: nat, valid: seq<Currency>, missed: seq<Currency>)

  function ValuesOf(rev: Revision): NewValues {
    NewValues(rev.number, rev.valid, rev.missed)
  }

  /** How the host builds a new revision: its own, with the renter's values. */
  function WithValues(rev: Revision, v: NewValues): Revision {
    rev.(number := v.number, valid := v.valid, missed := v.missed)
  }

  /** 64-bit arithmetic. */
  function Wrap(x: int): nat {
    x % 0x1_0000_0000_0000_0000
  }

  /** The file size after the actions, before it wraps. */
  function FileSizeAfter(size: int, actions: seq<Action>): int
    decreases |actions|
  {
    if |actions| == 0 then size
    else
      var next := match actions[0]
        case Append(_) => size + SECTOR_SIZE
        case Trim(count) => size - SECTOR_SIZE * count
        case Swap(_, _) => size;
      FileSizeAfter(next, actions[1..])
  }

  lemma {:induction false} FileSizeCounts(n: nat, actions: seq<Action>)
    requires ValidActions(actions, n)
    ensures FileSizeAfter(SECTOR_SIZE * n, actions) == SECTOR_SIZE * FinalSize(actions, n)
    decreases |actions|
  {
    if |actions| > 0 {
      FileSizeCounts(SizeAfter(actions[0], n), actions[1..]);
    }
  }

  lemma WrapSum(a: int, b: int)
    ensures Wrap(Wrap(a) + b) == Wrap(a + b)
  {
  }

  lemma {:induction false} FileSizeShifts(a: int, b: int, actions: seq<Action>)
    ensures FileSizeAfter(a + b, actions) == FileSizeAfter(a, actions) + b
    decreases |actions|
  {
    if |actions| > 0 {
      var next := match actions[0]
        case Append(_) => a + SECTOR_SIZE
        case Trim(count) => a - SECTOR_SIZE * count
        case Swap(_, _) => a;
      FileSizeShifts(next, b, actions[1..]);
    }
  }

  // ---------- the final revision of a renewed contract ----------

  /** RenewContract's final revision: one last payment, no data, no void output. */
  function RenterFinal(rev: Revision, base: Currency, zero: Hash): Revision
    requires Balanced(rev)
  {
    var payment := if base > rev.valid[0] then rev.valid[0] else base;
    var paid := Pay(rev, payment, 0);
    paid.(missed := paid.valid, fileSize := 0, root := zero, number := MAX_REVISION)
  }

  /** rpcRenewAndClearContract's final revision: the renter's values written over the old ones. */
  function HostFinal(rev: Revision, valid: seq<Currency>, missed: seq<Currency>, zero: Hash): Revision
    requires |valid| <= |rev.valid| && |missed| <= |rev.missed|
  {
    rev.(valid := valid + rev.valid[|valid|..], missed := missed + rev.missed[|missed|..], fileSize := 0, root := zero,
        number := MAX_REVISION)
  }

  /** The final revisions pay the host the base price, or what the renter has left, and have no sectors.
      The two sides never build the same one: the host keeps the old void output.
      Its valid and missed payouts agree exactly when that output is zero, as it is until a
      paid RPC, or a renewal of stored data, puts something in it. */
  lemma FinalRevisionsDiffer(rev: Revision, base: Currency, zero: Hash)
    requires Balanced(rev)
    ensures var r := RenterFinal(rev, base, zero);
      var h := HostFinal(rev, r.valid, r.missed, zero);
      var paid := if base <= rev.valid[0] then base else rev.valid[0];
      && r.valid == [rev.valid[0] - paid, rev.valid[1] + paid] && r.missed == r.valid
      && h.valid == r.valid && h.missed == [r.valid[0], r.valid[1], rev.missed[2]]
      && r.number == h.number == MAX_REVISION && r.fileSize == h.fileSize == 0 && r.root == h.root == zero && r.id == h.id == rev.id
      && h != r && (Balanced(h) <==> rev.missed[2] == 0)
  {
    var r := RenterFinal(rev, base, zero);
    var h := HostFinal(rev, r.valid, r.missed, zero);
    assert |h.missed| == 3 && |r.missed| == 2;
    assert h.missed[2] == rev.missed[2];
  }
}
