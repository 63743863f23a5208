/** The renter's session and the host it talks to (renter/proto/session.go, ghost/session.go),
    message by message.  Every RPC takes the steps of the Protocol module. */
module Sessions {
  import opened Bits
  import opened MerkleTree
  import opened AppendStacks
  import opened ProofStacks
  import opened RangeProofs
  import opened RangeVerifiers
  import opened Subtrees
  import opened DiffProofs
  import opened SectorProofs
  import opened Deletion
  import opened Formation
  import opened Messages
  import opened Contracts
  import opened Protocol

  /** SegmentsPerSector is 2^16. */
  const DEPTH := 16

  lemma DepthIsSector()
    ensures Pow2(DEPTH) == SEGMENTS < LIMIT
  {
    assert Pow2(8) == 256;
  }

  datatype Outcome = Done | NoContractLocked | Finalized | OutOfBounds | InsufficientFunds | InvalidProof | Broken | Panicked

  class Host {
    const H: HashFn
    var contracts: map<ContractId, HostContract>
    var locked: Option<ContractId>
    var detached: Option<Detached>
    var crashed: bool

    constructor (H: HashFn)
      ensures this.H == H && contracts == map[] && locked == None && detached == None && !crashed
    {
      this.H := H;
      contracts, locked, detached, crashed := map[], None, None, false;
    }

    /** The session has a contract. */
    predicate HasContract()
      reads this
    {
      HasCurrent(contracts, locked, detached)
    }

    function Contract(): HostContract
      requires HasContract()
      reads this
    {
      Current(contracts, locked, detached)
    }

    /** The session's contract changes, in the table or detached from it. */
    method Store(c: HostContract)
      requires HasContract()
      modifies this`contracts, this`detached
      ensures contracts == TableWith(old(contracts), locked, old(detached), c) && detached == DetachedWith(old(detached), c)
    {
      if detached.None? {
        contracts := contracts[locked.value := c];
      } else {
        var heir := detached.value.heir;
        contracts := contracts[heir := contracts[heir].(data := c.data)];
        detached := Some(Detached(c, heir));
      }
    }

    /** rpcLock: another contract may not be locked already. */
    method RpcLock(id: ContractId) returns (r: Option<HostContract>)
      modifies this`locked
      ensures r.Some? <==> old(locked).None? && id in contracts
      ensures r.Some? ==> r.value == contracts[id] && locked == Some(id)
      ensures r.None? ==> locked == old(locked)
    {
      if locked.Some? || id !in contracts {
        return None;
      }
      locked := Some(id);
      return Some(contracts[id]);
    }

    /** rpcUnlock, and the end of a connection. */
    method RpcUnlock()
      modifies this`locked, this`detached
      ensures locked == None && detached == None
    {
      locked, detached := None, None;
    }

    /** rpcSectorRoots: the new revision, the roots and their proof.  A request for no roots of a
        contract that has some is a panic. */
    method RpcSectorRoots(offset: nat, count: nat, v: NewValues, sig: Revision)
      returns (ok: bool, hostSig: Revision, roots: seq<Hash>, proof: seq<Hash>)
      requires HasContract() && (count > 0 || |Contract().roots| == 0)
      modifies this`contracts, this`detached
      ensures ok <==> HostHasRoots(old(Contract()), offset, count, v)
      ensures ok <==> var c := old(Contract());
        && offset + count <= |c.roots| && |v.valid| == |c.rev.valid| && |v.missed| == |c.rev.missed|
        && Readable(RootsRequestSize(v.valid, v.missed), 4096)
      ensures ok ==> HasContract() && Contract() == Charge(old(Contract()), v, sig)
      ensures contracts == if ok then TableWith(old(contracts), locked, old(detached), Charge(old(Contract()), v, sig)) else old(contracts)
      ensures detached == if ok then DetachedWith(old(detached), Charge(old(Contract()), v, sig)) else old(detached)
      ensures ok ==> hostSig == Contract().rev && roots == Contract().roots[offset..offset + count]
      ensures ok && count > 0 ==> proof == RangeProof(H, Contract().roots, offset, offset + count)
    {
      var c := Contract();
      if !Readable(RootsRequestSize(v.valid, v.missed), 4096) {
        return false, c.rev, [], [];
      }
      if offset > |c.roots| || offset + count > |c.roots| || |v.valid| != |c.rev.valid| || |v.missed| != |c.rev.missed| {
        return false, c.rev, [], [];
      }
      roots := c.roots[offset..offset + count];
      proof := BuildSectorRangeProof(H, c.roots, offset, offset + count);
      var rev := WithValues(c.rev, v);
      Store(c.(rev := rev, renterSig := sig, hostSig := rev));
      return true, rev, roots, proof;
    }

    /** rpcRead up to the response loop: the checks, and the new revision. */
    method RpcRead(sections: seq<Section>, v: NewValues, sig: Revision) returns (ok: bool, hostSig: Revision)
      requires HasContract() && |sections| > 0
      modifies this`contracts, this`detached
      ensures ok <==> HostReads(old(Contract()), sections, v)
      ensures ok <==> var c := old(Contract());
        && c.rev.number != MAX_REVISION && |v.valid| == |c.rev.valid| && |v.missed| == |c.rev.missed|
        && Readable(ReadRequestSize(|sections|, v.valid, v.missed), 4096)
        && forall i :: 0 <= i < |sections| ==>
             && 0 < sections[i].length && sections[i].offset + sections[i].length <= SECTOR_SIZE
             && sections[i].offset % SEGMENT_SIZE == 0 && sections[i].length % SEGMENT_SIZE == 0
      ensures ok ==> HasContract() && Contract() == Charge(old(Contract()), v, sig) && hostSig == Contract().rev
      ensures contracts == if ok then TableWith(old(contracts), locked, old(detached), Charge(old(Contract()), v, sig)) else old(contracts)
      ensures detached == if ok then DetachedWith(old(detached), Charge(old(Contract()), v, sig)) else old(detached)
    {
      var c := Contract();
      if !Readable(ReadRequestSize(|sections|, v.valid, v.missed), 4096) || c.rev.number == MAX_REVISION {
        return false, c.rev;
      }
      for k := 0 to |sections|
        invariant contracts == old(contracts) && detached == old(detached)
        invariant k > 0 ==> TakesValues(c, v)
        invariant forall i :: 0 <= i < k ==> SectionOk(sections[i])
      {
        var s := sections[k];
        if s.offset + s.length > SECTOR_SIZE || s.length == 0 || s.offset % SEGMENT_SIZE != 0 || s.length % SEGMENT_SIZE != 0 {
          return false, c.rev;
        }
        if |v.valid| != |c.rev.valid| || |v.missed| != |c.rev.missed| {
          return false, c.rev;
        }
      }
      var rev := WithValues(c.rev, v);
      Store(c.(rev := rev, renterSig := sig, hostSig := rev));
      return true, rev;
    }

    /** One response of rpcRead: the section's data and its proof, or None without the sector. */
    method Serve(s: Section) returns (r: Option<(seq<Segment>, seq<Hash>)>)
      requires HasContract() && SectionOk(s) && DataSound(H, Contract().roots, Contract().data)
      ensures var data := Contract().data;
        && (r.Some? <==> s.root in data)
        && (r.Some? ==> s.First() <= s.Past() <= |data[s.root]| && r.value.0 == data[s.root][s.First()..s.Past()])
        && (r.Some? ==> s.First() < s.Past() && r.value.1 == SectorProof(H, data[s.root], s.First(), s.Past(), DEPTH))
    {
      var data := Contract().data;
      if s.root !in data {
        return None;
      }
      DepthIsSector();
      WholeSegments(s);
      var sector := data[s.root];
      assert DataSoundIf(true, H, Contract().roots, data);
      assert SectorSound(H, s.root, sector);
      var zero := H.zero;
      var none: SubtreeRoots := (i: nat, j: nat) => zero;
      NothingPrecalculated(H, Roots(H, sector, 0), none, s.First(), s.Past(), 0, DEPTH);
      var proof := BuildProof(H, sector, s.First(), s.Past(), DEPTH, none);
      return Some((sector[s.First()..s.Past()], proof));
    }

    /** rpcWrite up to the renter's signature: the checks, and the Merkle proof. */
    method RpcWrite(actions: seq<Action>, v: NewValues)
      returns (ok: bool, newRoots: seq<Hash>, gained: map<Hash, seq<Segment>>, trees: seq<Hash>, leaves: seq<Hash>, newRoot: Hash)
      requires HasContract()
      ensures var roots := Contract().roots;
        && (ok <==> Readable(WriteRequestSize(actions, v.valid, v.missed), 5 * SECTOR_SIZE) && ValidActions(actions, |roots|))
        && (ok ==> newRoots == ApplyAll(H, actions, roots) && newRoot == Root(H, newRoots) && gained == Gained(H, actions))
        && (ok ==> var idx := Members(Touched(actions, |roots|), |roots|);
                   trees == BuiltTrees(LeafRoots(H, roots), 0, idx, |roots|) && leaves == Pick(roots, idx))
    {
      if !Readable(WriteRequestSize(actions, v.valid, v.missed), 5 * SECTOR_SIZE) {
        return false, [], map[], [], [], H.zero;
      }
      var roots := Contract().roots;
      ok, newRoots, gained := ApplyActions(actions, roots);
      if !ok {
        return false, [], map[], [], [], H.zero;
      }
      newRoot := MetaRoot(H, newRoots);
      trees, leaves := BuildDiffProof(H, actions, roots);
    }

    /** The action loop of rpcWrite. */
    method ApplyActions(actions: seq<Action>, roots: seq<Hash>) returns (ok: bool, newRoots: seq<Hash>, gained: map<Hash, seq<Segment>>)
      ensures ok <==> ValidActions(actions, |roots|)
      ensures ok ==> newRoots == ApplyAll(H, actions, roots) && gained == Gained(H, actions)
    {
      newRoots, gained := roots, map[];
      for k := 0 to |actions|
        invariant ValidActions(actions, |roots|) <==> ValidActions(actions[k..], |newRoots|)
        invariant ValidActions(actions, |roots|) ==> ApplyAll(H, actions, roots) == ApplyAll(H, actions[k..], newRoots)
        invariant gained + Gained(H, actions[k..]) == Gained(H, actions)
      {
        assert actions[k..][0] == actions[k] && actions[k..][1..] == actions[k + 1..];
        if !ValidAction(actions[k], |newRoots|) {
          return false, newRoots, gained;
        }
        match actions[k]
        case Append(sector) =>
          var root := SectorRoot(H, sector);
          newRoots, gained := newRoots + [root], gained[root := sector];
        case Trim(count) =>
          newRoots := newRoots[..|newRoots| - count];
        case Swap(i, j) =>
          newRoots := newRoots[i := newRoots[j]][j := newRoots[i]];
      }
      return true, newRoots, gained;
    }

    /** rpcWrite from the renter's signature on: the new revision. */
    method CommitWrite(actions: seq<Action>, newRoots: seq<Hash>, gained: map<Hash, seq<Segment>>, newRoot: Hash,
      v: NewValues, sig: Revision)
      returns (hostSig: Revision)
      requires HasContract() && ValidActions(actions, |Contract().roots|)
      requires newRoots == ApplyAll(H, actions, Contract().roots) && newRoot == Root(H, newRoots)
      requires gained == Gained(H, actions) && Contract().rev.fileSize == Wrap(Contract().rev.fileSize)
      modifies this`contracts, this`detached
      ensures var c := Written(H, old(Contract()), actions, v, sig);
        && contracts == TableWith(old(contracts), locked, old(detached), c) && detached == DetachedWith(old(detached), c)
        && hostSig == c.rev
    {
      var c := Contract();
      var size := NewFileSize(c.rev.fileSize, actions);
      var rev := WithValues(c.rev, v).(fileSize := size, root := newRoot);
      Store(HostContract(rev, sig, rev, newRoots, c.data + gained));
      return rev;
    }

    /** rpcFormContract, on the renter's signatures */
    method RpcFormContract(rev: Revision, sig: Revision)
      modifies this`contracts
      ensures contracts == old(contracts)[rev.id := HostContract(rev, sig, rev, [], map[])]
    {
      contracts := contracts[rev.id := HostContract(rev, sig, rev, [], map[])];
    }

    /** rpcRenewAndClearContract, on the renter's signatures: the session keeps the old contract, with
        the final values.  It looks for the sectors in the table, where a contract that this session
        has already renewed no longer is: not ok is the crash. */
    method RpcRenewAndClear(rev: Revision, sig: Revision, valid: seq<Currency>, missed: seq<Currency>) returns (ok: bool)
      requires HasContract() && locked.Some? && |valid| <= |Contract().rev.valid| && |missed| <= |Contract().rev.missed|
      modifies this
      ensures ok <==> old(detached).None?
      ensures crashed == (old(crashed) || !ok) && (ok ==> locked == old(locked)) && (!ok ==> locked == None)
      ensures !ok ==> contracts == old(contracts) && detached == None
      ensures ok ==> var c := old(Contract());
        && contracts == old(contracts)[rev.id := HostContract(rev, sig, rev, c.roots, c.data)] - {locked.value}
        && detached == Some(Detached(c.(rev := HostFinal(c.rev, valid, missed, H.zero)), rev.id))
    {
      var c := Contract();
      var final := HostFinal(c.rev, valid, missed, H.zero);
      if detached.Some? {
        crashed, locked, detached := true, None, None;
        return false;
      }
      contracts := contracts[rev.id := HostContract(rev, sig, rev, c.roots, c.data)] - {locked.value};
      detached := Some(Detached(c.(rev := final), rev.id));
      return true;
    }
  }

  /** A section that the host accepts has segments of its own. */
  lemma WholeSegments(s: Section)
    requires SectionOk(s)
    ensures s.First() < s.Past() <= SEGMENTS && s.length == (s.Past() - s.First()) * SEGMENT_SIZE
  {
  }

  /** The running file size of both sides, in 64 bits. */
  method NewFileSize(size: nat, actions: seq<Action>) returns (after: nat)
    requires size == Wrap(size)
    ensures after == Wrap(FileSizeAfter(size, actions))
  {
    after := size;
    for k := 0 to |actions|
      invariant after == Wrap(after) && Wrap(FileSizeAfter(after, actions[k..])) == Wrap(FileSizeAfter(size, actions))
    {
      assert actions[k..][1..] == actions[k + 1..];
      var delta := match actions[k]
        case Append(_) => SECTOR_SIZE
        case Trim(count) => -SECTOR_SIZE * count
        case Swap(_, _) => 0;
      WrappedSize(after + delta, actions[k + 1..]);
      after := Wrap(after + delta);
    }
  }

  lemma WrappedSize(size: int, actions: seq<Action>)
    ensures Wrap(FileSizeAfter(Wrap(size), actions)) == Wrap(FileSizeAfter(size, actions)) && Wrap(Wrap(size)) == Wrap(size)
  {
    FileSizeShifts(0, Wrap(size), actions);
    FileSizeShifts(0, size, actions);
    WrapSum(size, FileSizeAfter(0, actions));
  }

  lemma SectionAccepted(H: HashFn, s: Section, sector: seq<Segment>)
    requires SectionOk(s) && SectorSound(H, s.root, sector)
    ensures s.First() < s.Past() <= |sector| == Pow2(DEPTH) < LIMIT
    ensures var roots := ReadRoots(RangeVerifiers.Sum(H), sector[s.First()..s.Past()], s.First(), s.Past());
      && |roots| == |Heights(s.First(), s.Past())|
      && TilesAccept(H, SectorProof(H, sector, s.First(), s.Past(), DEPTH), roots, s.First(), s.Past(), DEPTH, s.root)
  {
    DepthIsSector();
    WholeSegments(s);
    var a, b := s.First(), s.Past();
    OwnRange(H, sector, sector[a..b], a, b, DEPTH, SectorProof(H, sector, a, b, DEPTH), s.root);
  }

  /** The streaming verifier accepts the range of a sector and its own proof. */
  lemma OwnRange(H: HashFn, sector: seq<Segment>, data: seq<Segment>, a: nat, b: nat, K: nat, proof: seq<Hash>, root: Hash)
    requires |sector| == Pow2(K) && a < b <= |sector| && data == sector[a..b] && proof == SectorProof(H, sector, a, b, K)
    requires root == Root(H, LeafHashes(H, sector))
    ensures var roots := ReadRoots(RangeVerifiers.Sum(H), data, a, b);
      |roots| == |Heights(a, b)| && TilesAccept(H, proof, roots, a, b, K, root)
  {
    ProofComplete(H, sector, a, b, K);
    assert Accepts(H, proof, data, a, K, root) && a + |data| == b;
    StreamingVerdict(H, data, a, K, proof, root);
  }

  /** The proof of a section fits its response. */
  lemma SectionReadable(H: HashFn, s: Section, sector: seq<Segment>)
    requires SectionOk(s) && SectorSound(H, s.root, sector)
    ensures s.First() < s.Past()
    ensures Readable(ReadResponseSize(s.length, |SectorProof(H, sector, s.First(), s.Past(), DEPTH)|), 4096 + s.length)
  {
    DepthIsSector();
    WholeSegments(s);
    var a, b := s.First(), s.Past();
    ProofComplete(H, sector, a, b, DEPTH);
    ProofSizePerfect(DEPTH, a, b);
    OnesAtMost(a, DEPTH);
    OnesAtMost(Pow2(DEPTH) - 1 - (b - 1), DEPTH);
    HashLimits(|SectorProof(H, sector, a, b, DEPTH)|, 0, s.length);
  }

  /** The renter's check of one section of a Read: the stream is hashed as it arrives. */
  method CheckSection(H: HashFn, s: Section, data: seq<Segment>, proof: seq<Hash>, ghost sector: seq<Segment>) returns (ok: bool)
    requires SectionOk(s) && SectorSound(H, s.root, sector) && s.First() < s.Past() <= |sector|
    requires data == sector[s.First()..s.Past()] && proof == SectorProof(H, sector, s.First(), s.Past(), DEPTH)
    ensures ok
  {
    SectionReadable(H, s, sector);
    if !Readable(ReadResponseSize(s.length, |proof|), 4096 + s.length) {
      return false;
    }
    SectionAccepted(H, s, sector);
    var v := new RangeProofVerifier(s.First(), s.Past());
    var read, _ := v.ReadFrom(H, data, false);
    ghost var roots := ReadRoots(RangeVerifiers.Sum(H), data, s.First(), s.Past());
    assert v.roots == roots && roots[..|roots|] == roots;
    ok := v.Verify(H, DEPTH, proof, s.root);
  }

  /** The renter's check of a Write: the host's proof is always good, and a panic is what there is to
      fear, for a tree that the proof stack cannot hold. */
  method CheckWrite(H: HashFn, rev: Revision, actions: seq<Action>, newFileSize: nat, trees: seq<Hash>,
    leaves: seq<Hash>, newRoot: Hash, appendRoots: seq<Hash>, ghost roots: seq<Hash>)
    returns (v: Verdict)
    requires NumSectors(rev) == |roots| && rev.root == Root(H, roots) && appendRoots == AppendRoots(H, actions)
    requires ValidActions(actions, |roots|) && newRoot == Root(H, ApplyAll(H, actions, roots))
    requires newFileSize > 0 <==> FinalSize(actions, |roots|) > 0
    requires var idx := Members(Touched(actions, |roots|), |roots|);
      trees == BuiltTrees(LeafRoots(H, roots), 0, idx, |roots|) && leaves == Pick(roots, idx)
    ensures v == if Checkable(actions, |roots|) then Accept else Panic
  {
    if newFileSize > 0 {
      DiffComplete(H, actions, roots, newRoot);
      v := VerifyDiffProof(H, actions, NumSectors(rev), trees, leaves, rev.root, newRoot, appendRoots);
      return;
    }
    return Accept;
  }

  /** SectorRoots' check of an honest host's roots: they pass exactly when ProofSize counts right. */
  method CheckRoots(H: HashFn, rev: Revision, rangeRoots: seq<Hash>, proof: seq<Hash>, start: nat, end: nat, ghost roots: seq<Hash>)
    returns (ok: bool)
    requires NumSectors(rev) == |roots| < LIMIT && HasRoot(H, rev.root, roots) && start < end <= |roots|
    requires rangeRoots == roots[start..end] && proof == RangeProof(H, roots, start, end)
    ensures ok <==> CountsRight(|roots|, end)
  {
    assert HasRootIf(true, H, rev.root, roots);
    RangeComplete(H, roots, start, end, rev.root);
    var v := VerifySectorRangeProof(H, proof, rangeRoots, start, end, NumSectors(rev), rev.root);
    return v == Accept;
  }

  lemma {:induction false} ValidSectors(actions: seq<Action>, n: nat)
    requires ValidActions(actions, n)
    ensures WholeSectors(actions)
    decreases |actions|
  {
    if |actions| > 0 {
      ValidSectors(actions[1..], SizeAfter(actions[0], n));
      forall i | 0 <= i < |actions| && actions[i].Append? ensures |actions[i].sector| == SEGMENTS {
        if i > 0 {
          assert actions[i] == actions[1..][i - 1];
        }
      }
    }
  }

  /** What the renter can tell from the outcome of an RPC: a refusal of its own, or that there was nothing
      to ask for, changed nothing; an interruption or a panic ended the session and left its revision; and
      otherwise it has paid for the next one, also when the roots it then got do not verify. */
  ghost predicate Tells(r: Outcome, was: World, now: World, nothing: bool, price: Currency, collateral: Currency) {
    && (r == Broken || r == Panicked ==> !now.open && now.held == was.held)
    && ((r == Done && !nothing) || r == InvalidProof ==> now.open && was.held.Some? && now.held.Some?)
    && ((r == Done && !nothing) || r == InvalidProof ==> Paid(was.held.value, now.held.value, price, collateral))
    && ((r == Done && nothing) || (r != Broken && r != Panicked && r != Done && r != InvalidProof) ==> now == was)
  }

  /** Which of its refusals a paid RPC gives, before it asks for anything: there is no contract, its number
      is the last, or the price and five times the base price are more than the renter has left. */
  ghost predicate Refuses(r: Outcome, rev: Option<Revision>, asks: bool, price: Currency, base: Currency) {
    && (r == NoContractLocked <==> rev.None?)
    && (r == Finalized <==> rev.Some? && rev.value.number >= MAX_REVISION)
    && (r == InsufficientFunds <==>
          rev.Some? && rev.value.number < MAX_REVISION && asks && |rev.value.valid| > 0 && price + 5 * base > rev.value.valid[0])
  }

  /** The host's table has the same contracts with the same sectors, and so has the session. */
  ghost predicate SameSectors(was: World, now: World) {
    && now.host.Keys == was.host.Keys && (forall id :: id in now.host ==> now.host[id].roots == was.host[id].roots)
    && (now.open ==> Sectors(now) == Sectors(was))
  }

  /** The roots of the session's contract. */
  ghost function Sectors(w: World): seq<Hash> {
    if w.open && w.held.Some? && HasCurrent(w.host, w.locked, w.detached) then Locked(w).roots else []
  }

  lemma SectorsCounted(H: HashFn, w: World)
    requires Inv(H, w)
    ensures w.open && w.held.Some? ==> |Sectors(w)| == NumSectors(w.held.value)
  {
    if w.open && w.held.Some? {
      OpenIsReady(H, w);
    }
  }

  /** The first offset of numRoots roots have been downloaded, and nothing else has changed. */
  ghost predicate Downloaded(was: World, now: World, numRoots: nat, offset: nat, roots: seq<Hash>) {
    && SameSectors(was, now) && SameContract(was, now)
    && (now.held.Some? ==> numRoots == NumSectors(now.held.value))
    && (now.open && now.held.Some? ==> offset <= |Sectors(was)| == numRoots && roots == Sectors(was)[..offset])
  }

  lemma DownloadedNext(was: World, now: World, next: World, numRoots: nat, offset: nat, n: nat, roots: seq<Hash>, chunk: seq<Hash>)
    requires Downloaded(was, now, numRoots, offset, roots) && offset + n <= numRoots
    requires SameSectors(now, next) && SameContract(now, next)
    requires next.open && next.held.Some? ==> offset + n <= |Sectors(next)| && chunk == Sectors(next)[offset..offset + n]
    ensures Downloaded(was, next, numRoots, offset + n, roots + chunk)
  {
    SameTwice(was, now, next);
  }

  lemma SameTwice(a: World, b: World, c: World)
    requires SameSectors(a, b) && SameSectors(b, c) && (c.open ==> b.open)
    ensures SameSectors(a, c)
    ensures SameContract(a, b) && SameContract(b, c) ==> SameContract(a, c)
  {
  }

  /** The session is open or not as before, on the same contract, with as many sectors. */
  ghost predicate SameContract(was: World, now: World) {
    && now.open == was.open && now.locked == was.locked && (now.held.Some? <==> was.held.Some?)
    && (now.held.Some? ==> now.held.value.id == was.held.value.id && now.held.value.fileSize == was.held.value.fileSize)
  }

  /** What becomes of a new contract: it is handed over, its RPC is interrupted, or it is not even asked
      for. */
  datatype FormOutcome = Formed(payouts: Payouts, rev: Revision) | FormInterrupted(payouts: Payouts) | FormBadHeights

  /** The same for a renewal; without a locked contract it panics. */
  datatype RenewOutcome = Renewed(payouts: Payouts, rev: Revision) | Interrupted(payouts: Payouts) | BadHeights | Unsatisfied
    | Unreachable | NothingToRenew

  class Session {
    const host: Host
    var open: bool
    var rev: Option<Revision>
    var base: Currency
    ghost var proposed: Option<Revision>
    ghost var totals: map<ContractId, Currency>

    ghost function W(): World
      reads this, host
    {
      World(host.contracts, host.locked, host.detached, host.crashed, open, rev, proposed, base, totals)
    }

    ghost predicate Valid()
      reads this, host
    {
      Inv(host.H, W())
    }

    /** A renter and a host that have no contract yet. */
    constructor (host: Host, base: Currency)
      requires host.contracts == map[] && host.locked == None && host.detached == None && !host.crashed
      ensures this.host == host && W() == Start(base) && Valid()
    {
      this.host := host;
      open, rev, this.base := false, None, base;
      proposed, totals := None, map[];
    }

    /** The connection breaks: the host's end of the session goes with it. */
    method Break(ghost p: Option<Revision>)
      modifies this, host
      ensures W() == Cut(old(W()), p)
    {
      open := false;
      host.RpcUnlock();
      proposed := p;
    }

    /** Lock, in this session or, when it has broken, in a new one. */
    method Lock(id: ContractId, delivered: nat) returns (r: Outcome)
      requires Valid()
      modifies this, host
      ensures Valid() && W() == Step(host.H, old(W()), Event.Lock(id, delivered))
      ensures r == Done || r == Finalized || r == Broken
      ensures r != Broken <==> !host.crashed && delivered >= 2 && id in host.contracts && !(old(open) && old(rev).Some?)
      ensures r != Broken ==> open && rev == Some(host.contracts[id].rev) && (r == Finalized <==> rev.value.number == MAX_REVISION)
    {
      StepKeeps(host.H, W(), Event.Lock(id, delivered));
      if host.crashed {
        return Broken;
      }
      if open && rev.Some? {
        Break(None);
        return Broken;
      }
      open, rev, proposed := true, None, None;
      if delivered == 0 {
        Break(None);
        return Broken;
      }
      var c := host.RpcLock(id);
      assert c.Some? ==> Sound(host.H, c.value, id, totals[id]);
      if c.None? || delivered == 1 || c.value.renterSig != c.value.rev || c.value.hostSig != c.value.rev {
        Break(None);
        return Broken;
      }
      rev := Some(c.value.rev);
      return if rev.value.number == MAX_REVISION then Finalized else Done;
    }

    /** Unlock */
    method Unlock(delivered: nat) returns (r: Outcome)
      requires Valid()
      modifies this, host
      ensures Valid() && W() == Step(host.H, old(W()), Event.Unlock(delivered))
      ensures r == Done <==> old(open) && old(rev).Some? && delivered > 0
      ensures r == NoContractLocked <==> old(rev).None?
      ensures r == Done ==> rev == None && host.locked == None
    {
      StepKeeps(host.H, W(), Event.Unlock(delivered));
      if rev.None? {
        return NoContractLocked;
      } else if !open {
        return Broken;
      }
      OpenIsReady(host.H, W());
      if delivered == 0 {
        Break(None);
        return Broken;
      }
      host.RpcUnlock();
      rev := None;
      return Done;
    }

    /** FormContract, in this session or, when it has broken, in a new one; id is the id of the contract
        in the funded transaction, and fee the transaction fee. */
    method FormContract(id: ContractId, settings: Settings, renterPayout: Currency, startHeight: nat, endHeight: nat,
      fee: Currency, delivered: nat)
      returns (r: FormOutcome)
      requires Valid() && id !in totals
      modifies this, host
      ensures Valid()
      ensures r.FormBadHeights? <==> endHeight < startHeight
      ensures r.FormBadHeights? ==> W() == old(W())
      ensures r.Formed? <==> endHeight >= startHeight && delivered >= 4 && !host.crashed
      ensures !r.FormBadHeights? ==>
        Funded(r.payouts, fee) && LargestPayout(r.payouts) && FormPriced(settings, renterPayout, endHeight - startHeight, r.payouts)
      ensures r.Formed? ==> r.rev == Revision(id, 1, 0, host.H.zero, r.payouts.valid, r.payouts.missed)
      ensures !r.FormBadHeights? ==> W() == Step(host.H, old(W()), Event.Form(id, r.payouts.valid, r.payouts.missed, delivered))
      ensures r.Formed? ==> HostHas(W(), r.rev) && (old(open) ==> open && rev == old(rev))
    {
      if endHeight < startHeight {
        return FormBadHeights;
      }
      var p := FormPayouts(settings, renterPayout, endHeight - startHeight, fee);
      if host.crashed {
        return FormInterrupted(p);
      }
      FormKeeps(host.H, W(), id, p.valid, p.missed, delivered);
      if !open {
        open, rev, proposed := true, None, None;
      }
      if delivered < 3 {
        Break(None);
        return FormInterrupted(p);
      }
      var init := Initial(id, 0, host.H.zero, p.valid, p.missed);
      host.RpcFormContract(init, init);
      totals := totals[id := Protocol.Sum(p.valid)];
      if delivered == 3 {
        Break(Some(init));
        return FormInterrupted(p);
      }
      return Formed(p, init);
    }

    /** RenewContract of the locked contract, which ended at windowEnd.  The session stays open, on the
        old contract. */
    method RenewContract(id: ContractId, settings: Settings, renterPayout: Currency, windowEnd: nat, startHeight: nat, endHeight: nat,
      fee: Currency, delivered: nat) returns (r: RenewOutcome)
      requires Valid() && id !in totals
      modifies this, host
      ensures Valid()
      ensures r.BadHeights? <==> endHeight < startHeight
      ensures r.NothingToRenew? <==> endHeight >= startHeight && old(rev).None?
      ensures r.Unsatisfied? <==>
        endHeight >= startHeight && old(rev).Some? && Unsatisfiable(settings, old(rev).value.fileSize, windowEnd, endHeight)
      ensures r.Renewed? || r.Interrupted? ==> old(open) && old(rev).Some? && Funded(r.payouts, fee) && LargestPayout(r.payouts)
      ensures r.Renewed? || r.Interrupted? ==>
        RenewPriced(settings, renterPayout, old(rev).value.fileSize, windowEnd, endHeight, r.payouts)
      ensures r.Renewed? ==> var was := old(rev).value;
        r.rev == Revision(id, 1, was.fileSize, was.root, r.payouts.valid, r.payouts.missed)
      ensures r.Renewed? || r.Interrupted? ==>
        W() == Step(host.H, old(W()), Event.Renew(id, r.payouts.valid, r.payouts.missed, delivered))
      ensures !r.Renewed? && !r.Interrupted? ==> W() == old(W())
      ensures r.Renewed? ==> old(host.detached).None? && delivered >= 4 && HostHas(W(), r.rev)
      ensures r.Renewed? ==> open && rev == old(rev) && host.detached.Some? && rev.value.id !in host.contracts
      ensures r.Interrupted? ==> (delivered < 4 || old(host.detached).Some?) && !open && rev == old(rev)
    {
      if endHeight < startHeight {
        return BadHeights;
      } else if rev.None? {
        return NothingToRenew;
      }
      var p := RenewPayouts(settings, renterPayout, rev.value.fileSize, windowEnd, endHeight, fee);
      if p.None? {
        return Unsatisfied;
      } else if !open {
        return Unreachable;
      }
      OpenIsReady(host.H, W());
      RenewKeeps(host.H, W(), id, p.value.valid, p.value.missed, delivered);
      r := AskRenewal(id, p.value, delivered);
    }

    /** The messages of RenewContract. */
    method AskRenewal(id: ContractId, p: Payouts, delivered: nat) returns (r: RenewOutcome)
      requires Ready(W()) && !host.crashed
      modifies this, host
      ensures W() == RenewStep(host.H, old(W()), id, p.valid, p.missed, delivered)
      ensures r == if delivered >= 4 && old(host.detached).None?
        then Renewed(p, Initial(id, old(rev).value.fileSize, old(rev).value.root, p.valid, p.missed)) else Interrupted(p)
    {
      if delivered < 3 {
        Break(None);
        return Interrupted(p);
      }
      var init := Initial(id, rev.value.fileSize, rev.value.root, p.valid, p.missed);
      var final := RenterFinal(rev.value, base, host.H.zero);
      var ok := host.RpcRenewAndClear(init, init, final.valid, final.missed);
      if !ok {
        Break(None);
        return Interrupted(p);
      }
      totals := totals[id := Protocol.Sum(p.valid)];
      if delivered == 3 {
        Break(Some(init));
        return Interrupted(p);
      }
      return Renewed(p, init);
    }

    /** SectorRoots.  The revision is taken over before the roots are checked, so a check that fails
        leaves both sides with the new one. */
    method SectorRoots(offset: nat, count: nat, price: Currency, delivered: nat) returns (r: Outcome, roots: seq<Hash>)
      requires Valid()
      modifies this, host
      ensures Valid() && W() == Step(host.H, old(W()), Event.SectorRoots(offset, count, price, delivered))
      ensures r != Panicked && Tells(r, old(W()), W(), count == 0, price, 0) && SameSectors(old(W()), W())
      ensures var numSectors := if old(rev).Some? then old(rev).value.fileSize / SECTOR_SIZE else 0;
        && Refuses(r, old(rev), 0 < count && offset + count <= numSectors, price, base)
        && (r == OutOfBounds <==> old(rev).Some? && old(rev).value.number < MAX_REVISION && offset + count > numSectors)
      ensures r == Done && count > 0 ==> SameContract(old(W()), W()) && HasRange(host, offset, count, roots)
      ensures (r == Done && count > 0) || r == InvalidProof ==>
        && 0 < offset + count <= NumSectors(old(rev).value)
        && (r == Done <==> CountsRight(NumSectors(old(rev).value), offset + count))
    {
      RootsEvent(host.H, W(), offset, count, price, delivered);
      roots := [];
      if rev.None? {
        return NoContractLocked, [];
      } else if rev.value.number >= MAX_REVISION {
        return Finalized, [];
      } else if offset + count > NumSectors(rev.value) {
        return OutOfBounds, [];
      } else if count == 0 {
        return Done, [];
      } else if !Affords(rev.value, price, base) {
        return InsufficientFunds, [];
      } else if !open {
        return Broken, [];
      }
      RootsStepTells(W(), offset, count, price, delivered);
      r, roots := PaidSectorRoots(offset, count, price, delivered);
    }

    /** The exchange, and the check of what came back. */
    method PaidSectorRoots(offset: nat, count: nat, price: Currency, delivered: nat) returns (r: Outcome, roots: seq<Hash>)
      requires Ready(W()) && Affords(rev.value, price, base) && count > 0
      requires var all := host.Contract().roots;
        NumSectors(rev.value) == |all| < LIMIT && HasRoot(host.H, rev.value.root, all) && offset + count <= |all|
      modifies this, host
      ensures W() == SectorRootsStep(old(W()), offset, count, price, delivered)
      ensures (r == Done || r == InvalidProof || r == Broken) && (r == Broken <==> !open)
      ensures r == Done ==> HasRange(host, offset, count, roots)
      ensures r != Broken ==> (r == Done <==> CountsRight(NumSectors(old(rev).value), offset + count))
    {
      ghost var all := host.Contract().roots;
      var proof;
      r, roots, proof := AskSectorRoots(offset, count, price, delivered);
      if r == Done {
        var ok := CheckRoots(host.H, rev.value, roots, proof, offset, offset + count, all);
        if !ok {
          return InvalidProof, [];
        }
      }
    }

    /** The messages of SectorRoots. */
    method AskSectorRoots(offset: nat, count: nat, price: Currency, delivered: nat)
      returns (r: Outcome, roots: seq<Hash>, proof: seq<Hash>)
      requires Ready(W()) && Affords(rev.value, price, base) && count > 0
      requires offset + count <= NumSectors(rev.value) && offset + count <= |host.Contract().roots| < LIMIT
      modifies this, host
      ensures W() == SectorRootsStep(old(W()), offset, count, price, delivered)
      ensures (r == Done || r == Broken) && (r == Done <==> open)
      ensures r == Done ==> rev.Some? && rev.value.root == old(rev).value.root && rev.value.fileSize == old(rev).value.fileSize
      ensures r == Done ==> HasRange(host, offset, count, roots)
      ensures r == Done ==> var all := old(host.Contract()).roots;
        roots == all[offset..offset + count] && proof == RangeProof(host.H, all, offset, offset + count)
    {
      var p := Pay(rev.value, price, 0).(number := rev.value.number + 1);
      if delivered == 0 {
        Break(Some(p));
        return Broken, [], [];
      }
      var ok, sig;
      ok, sig, roots, proof := host.RpcSectorRoots(offset, count, ValuesOf(p), p);
      if ok {
        RootsReadable(host.H, host.Contract().roots, offset, count);
      }
      if !ok || delivered == 1 || !Readable(RootsResponseSize(count, |proof|), 4096 + 32 * count) {
        Break(Some(p));
        return Broken, [], [];
      }
      rev := Some(p);
      return Done, roots, proof;
    }

    /** Write.  It panics on a sector of the wrong size, and when the contract would have 2^17 sectors or
        more. */
    method Write(actions: seq<Action>, price: Currency, collateral: Currency, delivered: nat) returns (r: Outcome)
      requires Valid()
      modifies this, host
      ensures Valid() && W() == Step(host.H, old(W()), Event.Write(actions, price, collateral, delivered))
      ensures r != InvalidProof && r != OutOfBounds && Refuses(r, old(rev), actions != [], price, base)
      ensures old(rev).Some? ==>
        Tells(r, old(W()), W(), actions == [], price, Capped(collateral, old(rev).value.missed))
      ensures r == Panicked <==>
        && old(open) && old(rev).Some? && actions != [] && Affords(old(rev).value, price, base)
        && WritePanics(actions, NumSectors(old(rev).value), ValuesOf(WritePayment(old(rev).value, price, collateral)), delivered)
    {
      WriteEvent(host.H, W(), actions, price, collateral, delivered);
      if rev.None? {
        return NoContractLocked;
      } else if rev.value.number >= MAX_REVISION {
        return Finalized;
      } else if |actions| == 0 {
        return Done;
      } else if !Affords(rev.value, price, base) {
        return InsufficientFunds;
      } else if !open {
        return Broken;
      }
      WriteStepTells(host.H, W(), actions, price, collateral, delivered);
      r := AskWrite(actions, price, collateral, delivered);
    }

    /** The payment of Write, and its append roots. */
    method AskWrite(actions: seq<Action>, price: Currency, collateral: Currency, delivered: nat) returns (r: Outcome)
      requires Ready(W()) && Affords(rev.value, price, base) && |actions| > 0
      requires host.Contract().rev.fileSize == Wrap(host.Contract().rev.fileSize)
      requires Described(host.H, rev.value, host.Contract().roots)
      modifies this, host
      ensures W() == WriteStep(host.H, old(W()), actions, price, collateral, delivered)
      ensures (r == Done || r == Broken || r == Panicked) && (r == Done <==> open)
      ensures r == Panicked <==>
        WritePanics(actions, NumSectors(old(rev).value), ValuesOf(WritePayment(old(rev).value, price, collateral)), delivered)
    {
      ghost var n := |host.Contract().roots|;
      WriteForms(host.H, W(), actions, price, collateral, delivered);
      WholeIfValid(actions, n);
      var newFileSize := NewFileSize(rev.value.fileSize, actions);
      var capped := if collateral > rev.value.missed[1] then rev.value.missed[1] else collateral;
      var paid := Pay(rev.value, price, capped).(number := rev.value.number + 1);
      assert paid == WritePayment(rev.value, price, collateral) && NumSectors(rev.value) == n;
      var whole, appendRoots := PrecomputeAppendRoots(host.H, actions);
      if !whole {
        Break(None);
        return Panicked;
      }
      r := SendWrite(actions, newFileSize, paid, appendRoots, delivered);
    }

    /** The messages of Write. */
    method SendWrite(actions: seq<Action>, newFileSize: nat, paid: Revision, appendRoots: seq<Hash>, delivered: nat) returns (r: Outcome)
      requires open && host.HasContract() && rev.Some? && WholeSectors(actions) && appendRoots == AppendRoots(host.H, actions)
      requires host.Contract().rev.fileSize == Wrap(host.Contract().rev.fileSize)
      requires Described(host.H, rev.value, host.Contract().roots) && newFileSize == Wrap(FileSizeAfter(rev.value.fileSize, actions))
      modifies this, host
      ensures var c := old(host.Contract());
        W() == if delivered < 3 || !WriteProved(actions, |c.roots|, ValuesOf(paid)) then Cut(old(W()), None)
          else
            var p := paid.(fileSize := newFileSize, root := Root(host.H, ApplyAll(host.H, actions, c.roots)));
            var put := Put(old(W()), Written(host.H, c, actions, ValuesOf(p), p));
            if delivered == 3 then Cut(put, Some(p)) else put.(held := Some(p))
      ensures (r == Done || r == Broken || r == Panicked) && (r == Done <==> open)
      ensures r == Panicked <==> WritePanics(actions, |old(host.Contract()).roots|, ValuesOf(paid), delivered)
    {
      if delivered == 0 {
        Break(None);
        return Broken;
      }
      var newRoots, gained, newRoot;
      r, newRoots, gained, newRoot := WriteProof(actions, newFileSize, ValuesOf(paid), appendRoots, delivered);
      if r != Done || delivered < 3 {
        Break(None);
        return if r == Done then Broken else r;
      }
      r := SignWrite(actions, newRoots, gained, paid.(fileSize := newFileSize, root := newRoot), delivered);
    }

    /** The exchange of signatures. */
    method SignWrite(actions: seq<Action>, newRoots: seq<Hash>, gained: map<Hash, seq<Segment>>, p: Revision, delivered: nat)
      returns (r: Outcome)
      requires host.HasContract() && ValidActions(actions, |host.Contract().roots|) && delivered >= 3
      requires newRoots == ApplyAll(host.H, actions, host.Contract().roots) && p.root == Root(host.H, newRoots)
      requires gained == Gained(host.H, actions) && host.Contract().rev.fileSize == Wrap(host.Contract().rev.fileSize)
      modifies this, host
      ensures var put := Put(old(W()), Written(host.H, old(host.Contract()), actions, ValuesOf(p), p));
        W() == if delivered == 3 then Cut(put, Some(p)) else put.(held := Some(p))
      ensures r == if delivered == 3 then Broken else Done
    {
      var sig := host.CommitWrite(actions, newRoots, gained, p.root, ValuesOf(p), p);
      if delivered == 3 {
        Break(Some(p));
        return Broken;
      }
      rev := Some(p);
      return Done;
    }

    /** The host's proof, and the renter's check of it if it arrives and can be read. */
    method WriteProof(actions: seq<Action>, newFileSize: nat, v: NewValues, appendRoots: seq<Hash>, delivered: nat)
      returns (r: Outcome, newRoots: seq<Hash>, gained: map<Hash, seq<Segment>>, newRoot: Hash)
      requires host.HasContract() && rev.Some? && Described(host.H, rev.value, host.Contract().roots) && delivered > 0
      requires newFileSize == Wrap(FileSizeAfter(rev.value.fileSize, actions)) && WholeSectors(actions)
      requires appendRoots == AppendRoots(host.H, actions)
      ensures var roots := host.Contract().roots;
        && r == (if delivered >= 2 && WriteProved(actions, |roots|, v) then Done
                 else if WritePanics(actions, |roots|, v, delivered) then Panicked else Broken)
        && (r == Done ==> newRoots == ApplyAll(host.H, actions, roots) && newRoot == Root(host.H, newRoots))
        && (r == Done ==> gained == Gained(host.H, actions))
    {
      var ok, trees, leaves;
      ok, newRoots, gained, trees, leaves, newRoot := host.RpcWrite(actions, v);
      if !ok || delivered == 1 {
        return Broken, newRoots, gained, newRoot;
      }
      ghost var roots := host.Contract().roots;
      BuiltHashes(host.H, actions, roots);
      if !Readable(ProofMessageSize(|trees| + |leaves|), 4096) {
        return Broken, newRoots, gained, newRoot;
      }
      FewAppends(actions, |roots|, v.valid, v.missed);
      SizeIsZero(host.H, rev.value, roots, actions);
      assert HasRootIf(true, host.H, rev.value.root, roots);
      var verdict := CheckWrite(host.H, rev.value, actions, newFileSize, trees, leaves, newRoot, appendRoots, roots);
      r := if verdict == Accept then Done else Panicked;
    }

    /** Read: the host commits first and then streams the sections, which the renter checks one by
        one.  What it gets is the data of the sectors with the roots it asked for. */
    method Read(sections: seq<Section>, price: Currency, delivered: nat) returns (r: Outcome, data: seq<seq<Segment>>)
      requires Valid()
      modifies this, host
      ensures Valid() && W() == Step(host.H, old(W()), Event.Read(sections, price, delivered))
      ensures r != InvalidProof && r != Panicked && r != OutOfBounds && Tells(r, old(W()), W(), sections == [], price, 0)
      ensures Refuses(r, old(rev), sections != [], price, base)
      ensures r == Done ==> |data| == |sections| && forall i :: 0 <= i < |data| ==> IsSection(host.H, sections[i], data[i])
    {
      StepKeeps(host.H, W(), Event.Read(sections, price, delivered));
      data := [];
      if rev.None? {
        return NoContractLocked, [];
      } else if rev.value.number >= MAX_REVISION {
        return Finalized, [];
      } else if |sections| == 0 {
        return Done, [];
      } else if !Affords(rev.value, price, base) {
        return InsufficientFunds, [];
      } else if !open {
        return Broken, [];
      }
      OpenIsReady(host.H, W());
      r, data := AskRead(sections, price, delivered);
    }

    /** The messages of Read; the stream counts as one. */
    method AskRead(sections: seq<Section>, price: Currency, delivered: nat) returns (r: Outcome, data: seq<seq<Segment>>)
      requires Ready(W()) && Affords(rev.value, price, base) && |sections| > 0
      requires DataSound(host.H, host.Contract().roots, host.Contract().data)
      modifies this, host
      ensures W() == Protocol.ReadStep(old(W()), sections, price, delivered)
      ensures (r == Done || r == Broken) && Tells(r, old(W()), W(), false, price, 0)
      ensures r == Done ==> |data| == |sections| && forall i :: 0 <= i < |data| ==> IsSection(host.H, sections[i], data[i])
    {
      var p := Pay(rev.value, price, 0).(number := rev.value.number + 1);
      if delivered == 0 {
        Break(Some(p));
        return Broken, [];
      }
      var ok, sig := host.RpcRead(sections, ValuesOf(p), p);
      if !ok || delivered == 1 {
        Break(Some(p));
        return Broken, [];
      }
      r, data := ReadSections(sections);
      if r != Done {
        Break(Some(p));
        return;
      }
      rev := Some(p);
    }

    /** The response loop. */
    method ReadSections(sections: seq<Section>) returns (r: Outcome, data: seq<seq<Segment>>)
      requires host.HasContract() && DataSound(host.H, host.Contract().roots, host.Contract().data)
      requires forall i :: 0 <= i < |sections| ==> SectionOk(sections[i])
      ensures r == Done || r == Broken
      ensures r == Done <==> forall i :: 0 <= i < |sections| ==> sections[i].root in host.Contract().data
      ensures r == Done ==> |data| == |sections| && forall i :: 0 <= i < |data| ==> IsSection(host.H, sections[i], data[i])
    {
      data := [];
      ghost var have := host.Contract().data;
      for k := 0 to |sections|
        invariant |data| == k && forall i :: 0 <= i < k ==> IsSection(host.H, sections[i], data[i])
        invariant forall i :: 0 <= i < k ==> sections[i].root in have
      {
        var section := ReadSection(sections[k]);
        if section.None? {
          return Broken, data;
        }
        data := data + [section.value];
      }
      return Done, data;
    }

    /** One section: None without the sector, or with a proof that does not hold. */
    method ReadSection(s: Section) returns (r: Option<seq<Segment>>)
      requires host.HasContract() && SectionOk(s) && DataSound(host.H, host.Contract().roots, host.Contract().data)
      ensures r.Some? <==> s.root in host.Contract().data
      ensures r.Some? ==> IsSection(host.H, s, r.value)
    {
      var served := host.Serve(s);
      if served.None? {
        return None;
      }
      ghost var c := host.Contract();
      ghost var sector := c.data[s.root];
      assert DataSoundIf(true, host.H, c.roots, c.data);
      assert SectorSound(host.H, s.root, sector);
      var ok := CheckSection(host.H, s, served.value.0, served.value.1, sector);
      assert IsSectionIf(true, host.H, s, served.value.0);
      return if ok then Some(served.value.0) else None;
    }

    /** All the roots of the contract, a chunk at a time; calls is how many it took. */
    method AllRoots(price: nat -> Currency, delivered: nat -> nat) returns (r: Outcome, roots: seq<Hash>, calls: nat)
      requires Valid()
      modifies this, host
      ensures Valid() && SameSectors(old(W()), W()) && r != Panicked
      ensures r == Done ==> SameContract(old(W()), W()) && (open && rev.Some? ==> roots == Sectors(W()))
      ensures r == Done && rev.Some? ==> |roots| == NumSectors(rev.value)
      ensures r == Done ==> 130000 * calls - 130000 < |roots| <= 130000 * calls || (calls == 0 && roots == [])
      ensures r == InvalidProof ==> old(rev).Some? && NumSectors(old(rev).value) > 130000
    {
      roots, calls := [], 0;
      var numRoots, offset := if rev.Some? then NumSectors(rev.value) else 0, 0;
      ghost var was := W();
      SectorsCounted(host.H, was);
      while offset < numRoots
        invariant 0 <= offset <= numRoots && |roots| == offset && (0 < offset < numRoots ==> numRoots > CHUNK)
        invariant offset == CHUNK * calls || (offset == numRoots && CHUNK * calls - CHUNK < offset <= CHUNK * calls)
        invariant Valid() && Downloaded(was, W(), numRoots, offset, roots)
      {
        var n := if offset + CHUNK > numRoots then numRoots - offset else CHUNK;
        r, roots := NextRoots(offset, n, price(calls), delivered(calls), numRoots, roots, was);
        calls := calls + 1;
        if r != Done {
          return;
        }
        offset := offset + n;
      }
      return Done, roots, calls;
    }

    /** One chunk of them. */
    method NextRoots(offset: nat, n: nat, price: Currency, delivered: nat, numRoots: nat, roots: seq<Hash>, ghost was: World)
      returns (r: Outcome, more: seq<Hash>)
      requires Valid() && rev.Some? && 0 < n && offset + n <= numRoots && |roots| == offset
      requires Downloaded(was, W(), numRoots, offset, roots)
      modifies this, host
      ensures Valid() && SameSectors(was, W()) && r != Panicked
      ensures r == Done ==> |more| == offset + n && Downloaded(was, W(), numRoots, offset + n, more)
      ensures r == InvalidProof ==> offset + n < numRoots
    {
      ghost var now := W();
      var chunk;
      r, chunk := SectorRoots(offset, n, price, delivered);
      SameTwice(was, now, W());
      more := roots + chunk;
      if r == Done {
        OpenIsReady(host.H, W());
        DownloadedNext(was, now, W(), numRoots, offset, n, roots, chunk);
      }
    }

    /** DeleteSectors: the contract's roots in chunks, then one Write.  price and delivered are those
        of each call in turn. */
    method DeleteSectors(requested: seq<Hash>, price: nat -> Currency, collateral: Currency, delivered: nat -> nat) returns (r: Outcome)
      requires Valid()
      modifies this, host
      ensures Valid() && r != Panicked
      ensures requested == [] ==> r == Done && W() == old(W())
      ensures requested != [] ==> DeleteTells(r, old(W()), W(), requested)
      ensures r == InvalidProof ==> old(rev).Some? && NumSectors(old(rev).value) > 130000
    {
      if |requested| == 0 {
        return Done;
      }
      var roots, calls;
      r, roots, calls := AllRoots(price, delivered);
      if r == Done {
        r := WriteDeletion(requested, roots, price(calls), collateral, delivered(calls));
      }
    }

    /** The Write of DeleteSectors. */
    method WriteDeletion(requested: seq<Hash>, roots: seq<Hash>, price: Currency, collateral: Currency, delivered: nat) returns (r: Outcome)
      requires Valid()
      requires open && rev.Some? ==> roots == Sectors(W())
      requires rev.Some? ==> |roots| == NumSectors(rev.value)
      modifies this, host
      ensures Valid() && r != InvalidProof && r != Panicked && DeleteTells(r, old(W()), W(), requested)
    {
      var actions := DeleteActions(host.H, roots, requested);
      DeleteShrinks(host.H, actions, roots, requested);
      ghost var was := W();
      WholeIfValid(actions, |roots|);
      if open && rev.Some? {
        OpenIsReady(host.H, was);
      }
      r := Write(actions, price, collateral, delivered);
      DeleteWritten(host.H, was, W(), r, roots, actions, price, collateral, delivered, requested);
    }
  }

  /** What DeleteSectors tells of the locked contract: done, the host's roots are the old ones without
      the requested, of which there are no more than 125 in it; interrupted, they are those or the old
      ones; otherwise they are the old ones.  Of
      a contract that the session has renewed, an interruption leaves nothing. */
  ghost predicate DeleteTells(r: Outcome, was: World, now: World, requested: seq<Hash>) {
    && now.host.Keys == was.host.Keys
    && (forall id :: id in was.host && (was.detached.Some? || was.locked != Some(id)) ==> now.host[id].roots == was.host[id].roots)
    && (was.detached.None? && was.locked.Some? && was.locked.value in was.host ==>
          RootsTell(r, was.host[was.locked.value].roots, now.host[was.locked.value].roots, requested))
    && (r == Done && was.open && was.held.Some? ==> RootsTell(r, Sectors(was), Sectors(now), requested))
  }

  lemma DeleteWritten(H: HashFn, was: World, now: World, r: Outcome, roots: seq<Hash>, actions: seq<Action>,
    price: Currency, collateral: Currency, delivered: nat, requested: seq<Hash>)
    requires Inv(H, was) && now == Step(H, was, Event.Write(actions, price, collateral, delivered))
    requires was.held.Some? ==> Tells(r, was, now, false, price, Capped(collateral, was.held.value.missed))
    requires was.held.None? ==> now == was && r != Done
    requires ValidActions(actions, |roots|) && Deleted(roots, ApplyAll(H, actions, roots), requested) && r != InvalidProof
    requires was.open && was.held.Some? ==> roots == Sectors(was)
    ensures DeleteTells(r, was, now, requested)
  {
    if was.open && was.held.Some? {
      OpenIsReady(H, was);
      DeleteStep(H, was, r, actions, price, collateral, delivered, requested);
    }
  }

  lemma DeleteStep(H: HashFn, was: World, r: Outcome, actions: seq<Action>, price: Currency, collateral: Currency, delivered: nat,
    requested: seq<Hash>)
    requires Inv(H, was) && Ready(was)
    requires Tells(r, was, WriteStep(H, was, actions, price, collateral, delivered), false, price,
                   Capped(collateral, was.held.value.missed))
    requires ValidActions(actions, |Sectors(was)|) && Deleted(Sectors(was), ApplyAll(H, actions, Sectors(was)), requested)
    requires r != InvalidProof
    ensures DeleteTells(r, was, WriteStep(H, was, actions, price, collateral, delivered), requested)
  {
    WriteSectors(H, was, actions, price, collateral, delivered);
    var now := WriteStep(H, was, actions, price, collateral, delivered);
    if was.detached.None? {
      assert RootsTell(r, was.host[was.locked.value].roots, now.host[was.locked.value].roots, requested);
    }
    if r == Done {
      assert RootsTell(r, Sectors(was), Sectors(now), requested);
    }
  }

  ghost predicate RootsTell(r: Outcome, before: seq<Hash>, after: seq<Hash>, requested: seq<Hash>) {
    && (r == Done ==> Deleted(before, after, requested) && |before| <= |after| + 125)
    && (r == Broken || r == Panicked ==> after == before || (Deleted(before, after, requested) && |before| <= |after| + 125))
    && (r != Done && r != Broken && r != Panicked ==> after == before)
  }

  /** DeleteSectors downloads this many roots at a time. */
  const CHUNK := 130000

  /** The roots are those at offset to offset + count of the session's contract. */
  ghost predicate HasRange(host: Host, offset: nat, count: nat, roots: seq<Hash>)
    reads host
  {
    count > 0 ==>
      host.HasContract() && offset + count <= |host.Contract().roots| && roots == host.Contract().roots[offset..offset + count]
  }

  /** The revision describes the sectors with the given roots. */
  ghost predicate Described(H: HashFn, rev: Revision, roots: seq<Hash>) {
    rev.fileSize == SECTOR_SIZE * |roots| && |roots| < LIMIT && HasRoot(H, rev.root, roots)
  }

  /** When Write panics: on a sector of the wrong size, and on a good proof of a valid change that
      takes the contract past what the proof stack can hold. */
  ghost predicate WritePanics(actions: seq<Action>, n: nat, v: NewValues, delivered: nat) {
    !WholeSectors(actions)
    || (&& delivered >= 2 && Readable(WriteRequestSize(actions, v.valid, v.missed), 5 * SECTOR_SIZE) && ValidActions(actions, n)
        && Readable(ProofMessageSize(ProofHashes(actions, n)), 4096) && !Checkable(actions, n))
  }

  lemma WholeIfValid(actions: seq<Action>, n: nat)
    ensures ValidActions(actions, n) ==> WholeSectors(actions)
  {
    if ValidActions(actions, n) {
      ValidSectors(actions, n);
    }
  }

  /** The proof of a range of roots fits its response. */
  lemma RootsReadable(H: HashFn, roots: seq<Hash>, offset: nat, count: nat)
    requires 0 < count && offset + count <= |roots| < LIMIT
    ensures Readable(RootsResponseSize(count, |RangeProof(H, roots, offset, offset + count)|), 4096 + 32 * count)
  {
    LimitIsPower();
    NeededAtMost(|roots|, offset, offset + count, HEIGHTS);
    HashLimits(|RangeProof(H, roots, offset, offset + count)|, count, 0);
  }

  /** The diff proof has as many hashes as its message reckons with. */
  lemma BuiltHashes(H: HashFn, actions: seq<Action>, roots: seq<Hash>)
    requires ValidActions(actions, |roots|)
    ensures var idx := Members(Touched(actions, |roots|), |roots|);
      |BuiltTrees(LeafRoots(H, roots), 0, idx, |roots|)| + |Pick(roots, idx)| == ProofHashes(actions, |roots|)
  {
  }

  lemma SizeIsZero(H: HashFn, rev: Revision, roots: seq<Hash>, actions: seq<Action>)
    requires Described(H, rev, roots) && ValidActions(actions, |roots|) && Appends(actions) < 5
    ensures NumSectors(rev) == |roots| && (Wrap(FileSizeAfter(rev.fileSize, actions)) > 0 <==> FinalSize(actions, |roots|) > 0)
  {
    FileSizeCounts(|roots|, actions);
    FinalAtMost(actions, |roots|);
  }

  /** The SectorRoots event: nothing happens when the renter refuses it or has no connection. */
  lemma RootsEvent(H: HashFn, w: World, offset: nat, count: nat, price: Currency, delivered: nat)
    requires Inv(H, w)
    ensures Inv(H, Step(H, w, Event.SectorRoots(offset, count, price, delivered)))
    ensures
      if w.open && w.held.Some? && 0 < count && offset + count <= NumSectors(w.held.value) && Affords(w.held.value, price, w.base)
      then
        && Ready(w) && Step(H, w, Event.SectorRoots(offset, count, price, delivered)) == SectorRootsStep(w, offset, count, price, delivered)
        && NumSectors(w.held.value) == |Locked(w).roots| < LIMIT && HasRoot(H, w.held.value.root, Locked(w).roots)
      else Step(H, w, Event.SectorRoots(offset, count, price, delivered)) == w
  {
    StepKeeps(H, w, Event.SectorRoots(offset, count, price, delivered));
    if w.open && w.held.Some? {
      OpenIsReady(H, w);
    }
  }

  /** The Write event, likewise. */
  lemma WriteEvent(H: HashFn, w: World, actions: seq<Action>, price: Currency, collateral: Currency, delivered: nat)
    requires Inv(H, w)
    ensures Inv(H, Step(H, w, Event.Write(actions, price, collateral, delivered)))
    ensures
      if w.open && w.held.Some? && |actions| > 0 && Affords(w.held.value, price, w.base)
      then
        && Ready(w)
        && Step(H, w, Event.Write(actions, price, collateral, delivered)) == WriteStep(H, w, actions, price, collateral, delivered)
        && Locked(w).rev.fileSize == Wrap(Locked(w).rev.fileSize) && Described(H, w.held.value, Locked(w).roots)
      else Step(H, w, Event.Write(actions, price, collateral, delivered)) == w
  {
    StepKeeps(H, w, Event.Write(actions, price, collateral, delivered));
    if w.open && w.held.Some? {
      OpenIsReady(H, w);
    }
  }

  /** What the renter can tell from where SectorRoots has left it. */
  lemma RootsStepTells(w: World, offset: nat, count: nat, price: Currency, delivered: nat)
    requires Ready(w) && Affords(w.held.value, price, w.base) && 0 < count && offset + count <= NumSectors(w.held.value)
    ensures var w' := SectorRootsStep(w, offset, count, price, delivered);
      && SameSectors(w, w') && (!w'.open ==> w'.held == w.held)
      && (w'.open ==> w'.held.Some? && Paid(w.held.value, w'.held.value, price, 0) && SameContract(w, w'))
  {
    var p := Proposal(w.held.value, price);
    ChargeTells(w, p, HostHasRoots(Locked(w), offset, count, ValuesOf(p)), true, delivered);
  }

  lemma ChargeTells(w: World, p: Revision, accepts: bool, serves: bool, delivered: nat)
    requires Ready(w) && p.id == w.held.value.id && p.fileSize == w.held.value.fileSize
    ensures var w' := ChargeStep(w, p, accepts, serves, delivered);
      SameSectors(w, w') && (if w'.open then w'.held == Some(p) && SameContract(w, w') else w'.held == w.held)
  {
    PutRoots(w, Charge(Locked(w), ValuesOf(p), p));
  }

  /** The collateral, or what the host has left. */
  function Capped(collateral: Currency, missed: seq<Currency>): Currency {
    if |missed| < 2 || collateral < missed[1] then collateral else missed[1]
  }

  /** WriteStep, by whether the proof gets through. */
  lemma WriteForms(H: HashFn, w: World, actions: seq<Action>, price: Currency, collateral: Currency, delivered: nat)
    requires Ready(w) && Affords(w.held.value, price, w.base) && |actions| > 0
    ensures var w', c := WriteStep(H, w, actions, price, collateral, delivered), Locked(w);
      var paid := WritePayment(w.held.value, price, collateral);
      if delivered < 3 || !WriteProved(actions, |c.roots|, ValuesOf(paid)) then w' == Cut(w, None)
      else
        var p := paid.(fileSize := Wrap(FileSizeAfter(w.held.value.fileSize, actions)), root := Root(H, ApplyAll(H, actions, c.roots)));
        var put := Put(w, Written(H, c, actions, ValuesOf(p), p));
        w' == if delivered == 3 then Cut(put, Some(p)) else put.(held := Some(p))
  {
  }

  lemma WriteStepTells(H: HashFn, w: World, actions: seq<Action>, price: Currency, collateral: Currency, delivered: nat)
    requires Ready(w) && Affords(w.held.value, price, w.base) && |actions| > 0
    ensures var w' := WriteStep(H, w, actions, price, collateral, delivered);
      && (!w'.open ==> w'.held == w.held)
      && (w'.open ==> w'.held.Some? && Paid(w.held.value, w'.held.value, price, Capped(collateral, w.held.value.missed)))
  {
  }

  /** The segments are those of the sector with the section's root. */
  ghost predicate IsSection(H: HashFn, s: Section, segments: seq<Segment>) {
    forall v: bool :: IsSectionIf(v, H, s, segments)
  }

  ghost predicate IsSectionIf(v: bool, H: HashFn, s: Section, segments: seq<Segment>) {
    v ==>
      var first, past := s.offset / SEGMENT_SIZE, (s.offset + s.length) / SEGMENT_SIZE;
      exists sector :: SectorSound(H, s.root, sector) && first <= past <= |sector| && segments == sector[first..past]
  }
}
