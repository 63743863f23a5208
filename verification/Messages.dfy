/** The sizes of the messages of the RPCs that revise a contract (renterhost/encoding.go:
    marshalledSize) and the limits under which the two sides read them (renterhost/session.go:
    writeMessage, readMessage; ghost/session.go and renter/proto/session.go: the calls). */
module Messages {
  import Codecs
  import opened DiffProofs
  import opened Formation

  const MIN_MESSAGE := 4096
  const SECTOR_SIZE := 4194304
  const SEGMENT_SIZE := 64
  const HASH_SIZE := 32
  const SIGNATURE_SIZE := 64

  /** A message is read if it has at most maxLen bytes: the object with a nonce of 12 bytes and a tag
      of 16, padded to MinMessageSize with its length. */
  predicate Readable(size: nat, maxLen: nat) {
    var padded := if 8 + 12 + size + 16 < MIN_MESSAGE then MIN_MESSAGE else 8 + 12 + size + 16;
    padded - 8 <= if maxLen < MIN_MESSAGE then MIN_MESSAGE else maxLen
  }

  /** objCurrency */
  function AmountSize(amount: Currency): nat {
    8 + |Codecs.BigEndian(amount)|
  }

  function AmountsSize(amounts: seq<Currency>): nat {
    if |amounts| == 0 then 8 else AmountsSize(amounts[..|amounts| - 1]) + AmountSize(amounts[|amounts| - 1])
  }

  /** RPCSectorRootsRequest */
  function RootsRequestSize(valid: seq<Currency>, missed: seq<Currency>): nat {
    8 + 8 + 8 + AmountsSize(valid) + AmountsSize(missed) + 8 + SIGNATURE_SIZE
  }

  /** RPCSectorRootsResponse */
  function RootsResponseSize(count: nat, proof: nat): nat {
    1 + 8 + SIGNATURE_SIZE + 8 + count * HASH_SIZE + 8 + proof * HASH_SIZE
  }

  /** RPCReadRequest */
  function ReadRequestSize(sections: nat, valid: seq<Currency>, missed: seq<Currency>): nat {
    8 + sections * (HASH_SIZE + 8 + 8) + 1 + 8 + AmountsSize(valid) + AmountsSize(missed) + 8 + SIGNATURE_SIZE
  }

  /** RPCReadResponse, with the host's signature */
  function ReadResponseSize(length: nat, proof: nat): nat {
    1 + 8 + SIGNATURE_SIZE + 8 + length + 8 + proof * HASH_SIZE
  }

  function ActionsSize(actions: seq<Action>): nat {
    if |actions| == 0 then 8
    else 16 + 8 + 8 + 8 + (if actions[0].Append? then |actions[0].sector| * SEGMENT_SIZE else 0) + ActionsSize(actions[1..])
  }

  /** RPCWriteRequest */
  function WriteRequestSize(actions: seq<Action>, valid: seq<Currency>, missed: seq<Currency>): nat {
    ActionsSize(actions) + 1 + 8 + AmountsSize(valid) + AmountsSize(missed)
  }

  /** RPCWriteMerkleProof */
  function ProofMessageSize(hashes: nat): nat {
    1 + 8 + 8 + hashes * HASH_SIZE + HASH_SIZE
  }

  /** The hashes of the diff proof of some actions: gap roots and old leaves. */
  ghost function ProofHashes(actions: seq<Action>, n: nat): nat
    requires ValidActions(actions, n)
  {
    var idx := Members(Touched(actions, n), n);
    TreesNeeded(0, idx, n) + |idx|
  }

  /** How many appended sectors there are. */
  function Appends(actions: seq<Action>): nat {
    if |actions| == 0 then 0 else (if actions[0].Append? then 1 else 0) + Appends(actions[1..])
  }

  lemma {:induction false} ActionsSizeIs(actions: seq<Action>, n: nat)
    requires ValidActions(actions, n)
    ensures ActionsSize(actions) == 8 + 40 * |actions| + SECTOR_SIZE * Appends(actions)
    decreases |actions|
  {
    if |actions| > 0 {
      ActionsSizeIs(actions[1..], SizeAfter(actions[0], n));
    }
  }

  /** How much of a Write request the host reads. */
  lemma WriteRequestLimit(actions: seq<Action>, n: nat, valid: seq<Currency>, missed: seq<Currency>)
    requires ValidActions(actions, n) && |valid| == 2 && |missed| == 3
    ensures Readable(WriteRequestSize(actions, valid, missed), 5 * SECTOR_SIZE) <==>
      40 * |actions| + SECTOR_SIZE * Appends(actions) + AmountBytes(valid, missed) + 101 <= 5 * SECTOR_SIZE
  {
    ActionsSizeIs(actions, n);
    AmountsSizes(valid, missed);
  }

  lemma {:induction false} FinalAtMost(actions: seq<Action>, n: nat)
    requires ValidActions(actions, n)
    ensures FinalSize(actions, n) <= n + Appends(actions)
    decreases |actions|
  {
    if |actions| > 0 {
      FinalAtMost(actions[1..], SizeAfter(actions[0], n));
    }
  }

  /** The host reads no request with five sectors or more. */
  lemma FewAppends(actions: seq<Action>, n: nat, valid: seq<Currency>, missed: seq<Currency>)
    requires ValidActions(actions, n) && Readable(WriteRequestSize(actions, valid, missed), 5 * SECTOR_SIZE)
    ensures Appends(actions) < 5
  {
    ActionsSizeIs(actions, n);
  }

  /** A proof has a leaf for every sector that goes. */
  lemma RemovedHashes(actions: seq<Action>, n: nat)
    requires ValidActions(actions, n)
    ensures n <= FinalSize(actions, n) + ProofHashes(actions, n)
  {
    var n', T := FinalSize(actions, n), Touched(actions, n);
    if n' < n {
      RunTouched(actions, n);
      MembersRun(T, n', n);
    }
  }

  /** The bytes of the amounts in a request. */
  function AmountBytes(valid: seq<Currency>, missed: seq<Currency>): nat
    requires |valid| == 2 && |missed| == 3
  {
    |Codecs.BigEndian(valid[0])| + |Codecs.BigEndian(valid[1])|
      + |Codecs.BigEndian(missed[0])| + |Codecs.BigEndian(missed[1])| + |Codecs.BigEndian(missed[2])|
  }

  lemma {:induction false} AmountFits(amount: Currency, k: nat)
    ensures |Codecs.BigEndian(amount)| <= k <==> amount < Codecs.Pow256(k)
    decreases amount
  {
    if amount > 0 && k > 0 {
      AmountFits(amount / 256, k - 1);
    }
  }

  lemma OneMore(amounts: seq<Currency>, amount: Currency)
    ensures AmountsSize(amounts + [amount]) == AmountsSize(amounts) + 8 + |Codecs.BigEndian(amount)|
  {
    assert (amounts + [amount])[..|amounts|] == amounts;
  }

  lemma AmountsSizes(valid: seq<Currency>, missed: seq<Currency>)
    requires |valid| == 2 && |missed| == 3
    ensures AmountsSize(valid) + AmountsSize(missed) == 56 + AmountBytes(valid, missed)
  {
    OneMore([], valid[0]);
    OneMore([valid[0]], valid[1]);
    OneMore([], missed[0]);
    OneMore([missed[0]], missed[1]);
    OneMore([missed[0], missed[1]], missed[2]);
    assert valid == [valid[0]] + [valid[1]] && missed == [missed[0], missed[1]] + [missed[2]];
    assert [valid[0]] == [] + [valid[0]] && [missed[0]] == [] + [missed[0]] && [missed[0], missed[1]] == [missed[0]] + [missed[1]];
  }

  /** How much the host reads: for SectorRoots amounts of 3916 bytes, and for Read 48 bytes fewer for each
      section, after the first 3923.  So 80 sections always fit amounts below 2^128, and 82 never. */
  lemma RequestLimits(sections: nat, valid: seq<Currency>, missed: seq<Currency>)
    requires |valid| == 2 && |missed| == 3
    ensures Readable(RootsRequestSize(valid, missed), 4096) <==> AmountBytes(valid, missed) <= 3916
    ensures Readable(ReadRequestSize(sections, valid, missed), 4096) <==> 48 * sections + AmountBytes(valid, missed) <= 3923
  {
    AmountsSizes(valid, missed);
  }

  lemma SectionsFit(sections: nat, valid: seq<Currency>, missed: seq<Currency>)
    requires |valid| == 2 && |missed| == 3
    ensures sections >= 82 ==> !Readable(ReadRequestSize(sections, valid, missed), 4096)
    ensures
      (sections <= 80 && (forall i :: 0 <= i < 2 ==> valid[i] < Codecs.Pow256(16)) &&
       (forall i :: 0 <= i < 3 ==> missed[i] < Codecs.Pow256(16))) ==>
      Readable(ReadRequestSize(sections, valid, missed), 4096)
  {
    RequestLimits(sections, valid, missed);
    AmountFits(valid[0], 16);
    AmountFits(valid[1], 16);
    AmountFits(missed[0], 16);
    AmountFits(missed[1], 16);
    AmountFits(missed[2], 16);
  }

  /** What the limits of 4096 bytes come to: a Write proof of at most 125 hashes, and room for proofs
      of 124 in the other responses. */
  lemma HashLimits(hashes: nat, count: nat, length: nat)
    ensures Readable(ProofMessageSize(hashes), 4096) <==> hashes <= 125
    ensures Readable(RootsResponseSize(count, hashes), 4096 + 32 * count) <==> hashes <= 124
    ensures Readable(ReadResponseSize(length, hashes), 4096 + length) <==> hashes <= 124
  {
  }
}
