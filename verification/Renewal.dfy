/** A session that has renewed its contract (renter/proto/renew.go, ghost/session.go:
    rpcRenewAndClearContract).  It stays open on the old contract, which has left the host's table: what
    its two sides then have, and when they agree. */
module Renewals {
  import opened MerkleTree
  import opened ProofStacks
  import opened DiffProofs
  import opened Formation
  import opened Messages
  import opened Contracts
  import opened Protocol

  /** The renter's session has a contract that is no longer in the host's table. */
  predicate LeftBehind(w: World) {
    w.held.Some? && w.held.value.id !in w.host
  }

  /** Whether the session has renewed its contract since it locked it, from one event to the next. */
  ghost predicate RenewedSince(w: World, e: Event, before: bool) {
    if w.crashed then before
    else
      match e
      case Renew(_, _, _, delivered) => before || (Ready(w) && delivered >= 3)
      case Lock(_, _) => before && w.open && w.locked.Some?
      case Unlock(delivered) => before && !(Ready(w) && delivered > 0)
      case Form(_, _, _, _) => before && w.open
      case _ => before
  }

  ghost predicate RenewedIn(H: HashFn, w: World, events: seq<Event>, before: bool)
    decreases |events|
  {
    if |events| == 0 then before
    else RenewedIn(H, Step(H, w, events[0]), events[1..], RenewedSince(w, events[0], before))
  }

  lemma LeftBehindStep(H: HashFn, w: World, e: Event)
    requires Inv(H, w) && Possible(w, e)
    ensures LeftBehind(Step(H, w, e)) <==> RenewedSince(w, e, LeftBehind(w))
  {
    if w.open && w.held.Some? {
      OpenIsReady(H, w);
    }
  }

  /** In every reachable state: the session's contract has left the table exactly if the session has
      renewed it since it locked it.  While it is open, both sides have the same revision, which is
      that of the table, if it has not, and the contract is detached if it has. */
  lemma {:induction false} RenewedExactly(H: HashFn, w: World, events: seq<Event>)
    requires Inv(H, w) && Possibles(H, w, events)
    ensures var w' := Run(H, w, events);
      && (LeftBehind(w') <==> RenewedIn(H, w, events, LeftBehind(w)))
      && (w'.open && w'.held.Some? ==> Ready(w') && (w'.detached.Some? <==> LeftBehind(w')))
      && (w'.open && w'.held.Some? && !LeftBehind(w') ==> HostHas(w', w'.held.value) && Locked(w').rev == w'.held.value)
    decreases |events|
  {
    if |events| > 0 {
      StepKeeps(H, w, events[0]);
      LeftBehindStep(H, w, events[0]);
      RenewedExactly(H, Step(H, w, events[0]), events[1..]);
    } else if w.open && w.held.Some? {
      OpenIsReady(H, w);
    }
  }

  /** The state just after a renewal. */
  ghost predicate AtRenewal(H: HashFn, w1: World) {
    w1.detached.Some? && w1.held.Some? && w1.detached.value.heir in w1.host && Cleared(H, w1.detached.value.contract, w1.held.value)
  }

  /** The session that renewed its contract in the step to w1 is still the same in w.  As long as the
      renter's number has not moved, nothing has.  After that the host has the renter's values, a file
      size that began again at zero, and no root until a Write gives it one.  No contract of the
      table has changed, except that the heir has the data the session added. */
  ghost predicate Since(H: HashFn, w1: World, w: World)
    requires AtRenewal(H, w1)
  {
    forall v: bool :: SinceIf(v, H, w1, w)
  }

  ghost predicate SinceIf(v: bool, H: HashFn, w1: World, w: World)
    requires AtRenewal(H, w1)
  {
    v ==>
    && w.detached.Some? && w.held.Some?
    && var c1, h1, c, h, heir := w1.detached.value.contract, w1.held.value, w.detached.value.contract, w.held.value,
         w1.detached.value.heir;
      && w.detached.value.heir == heir && h.number >= h1.number
      && (h.number == h1.number ==> h == h1 && c == c1)
      && (h.number > h1.number ==>
            && Revised(c, h) && c.rev.fileSize == Wrap(h.fileSize - h1.fileSize)
            && (c.rev.root == h.root || (c.rev.root == H.zero && h1.fileSize > 0)))
      && (forall id :: id in w1.host ==>
            id in w.host && w.host[id] == if id == heir then w1.host[id].(data := c.data) else w1.host[id])
  }

  /** Every step in between is one of the session that renewed. */
  ghost predicate StaysDetached(H: HashFn, w: World, events: seq<Event>)
    decreases |events|
  {
    w.detached.Some? && (|events| == 0 || StaysDetached(H, Step(H, w, events[0]), events[1..]))
  }

  /** The host's file size follows the renter's at its distance. */
  lemma SizesApart(host: nat, held: nat, first: nat, actions: seq<Action>)
    requires host == Wrap(held - first)
    ensures Wrap(FileSizeAfter(host, actions)) == Wrap(FileSizeAfter(held, actions) - first)
  {
    FileSizeShifts(0, host, actions);
    FileSizeShifts(0, held, actions);
    WrapSum(held - first, FileSizeAfter(0, actions));
  }

  lemma PutSince(H: HashFn, w1: World, w: World, c: HostContract, p: Revision)
    requires AtRenewal(H, w1) && Ready(w) && Since(H, w1, w) && p.number == w.held.value.number + 1 && Revised(c, p)
    requires c.rev.fileSize == Wrap(p.fileSize - w1.held.value.fileSize)
    requires c.rev.root == p.root || (c.rev.root == H.zero && w1.held.value.fileSize > 0)
    ensures Since(H, w1, Put(w, c).(held := Some(p)))
  {
    assert SinceIf(true, H, w1, w);
    assert SinceIf(true, H, w1, Put(w, c).(held := Some(p)));
  }

  lemma ChargeSince(H: HashFn, w1: World, w: World, p: Revision)
    requires AtRenewal(H, w1) && Ready(w) && Since(H, w1, w)
    requires p.number == w.held.value.number + 1 && p.fileSize == w.held.value.fileSize && p.root == w.held.value.root
    requires w.held.value.number == w1.held.value.number ==> w1.held.value.fileSize > 0
    ensures Since(H, w1, Put(w, Charge(Locked(w), ValuesOf(p), p)).(held := Some(p)))
  {
    assert SinceIf(true, H, w1, w);
    PutSince(H, w1, w, Charge(Locked(w), ValuesOf(p), p), p);
  }

  lemma WriteSince(H: HashFn, w1: World, w: World, actions: seq<Action>, p: Revision)
    requires AtRenewal(H, w1) && Ready(w) && Since(H, w1, w)
    requires p.number == w.held.value.number + 1 && ValidActions(actions, |Locked(w).roots|)
    requires p.fileSize == FileSizeAfter(w.held.value.fileSize, actions) && p.root == Root(H, ApplyAll(H, actions, Locked(w).roots))
    ensures Since(H, w1, Put(w, Written(H, Locked(w), actions, ValuesOf(p), p)).(held := Some(p)))
  {
    assert SinceIf(true, H, w1, w);
    SizesApart(Locked(w).rev.fileSize, w.held.value.fileSize, w1.held.value.fileSize, actions);
    PutSince(H, w1, w, Written(H, Locked(w), actions, ValuesOf(p), p), p);
  }

  lemma RootsSince(H: HashFn, w1: World, w: World, offset: nat, count: nat, price: Currency, delivered: nat)
    requires AtRenewal(H, w1) && Ready(w) && Since(H, w1, w)
    ensures var w' := RevisionStep(H, w, Event.SectorRoots(offset, count, price, delivered)); w'.detached.Some? ==> Since(H, w1, w')
  {
    assert SinceIf(true, H, w1, w);
    if Affords(w.held.value, price, w.base) && count > 0 && offset + count <= NumSectors(w.held.value) {
      ChargeSince(H, w1, w, Proposal(w.held.value, price));
    }
  }

  /** The final revision is not read. */
  lemma ReadSince(H: HashFn, w1: World, w: World, sections: seq<Section>, price: Currency, delivered: nat)
    requires AtRenewal(H, w1) && Ready(w) && Since(H, w1, w)
    ensures var w' := RevisionStep(H, w, Event.Read(sections, price, delivered)); w'.detached.Some? ==> Since(H, w1, w')
  {
    assert SinceIf(true, H, w1, w);
    if Affords(w.held.value, price, w.base) && w.held.value.number > w1.held.value.number {
      ChargeSince(H, w1, w, Proposal(w.held.value, price));
    }
  }

  lemma WriteStepSince(H: HashFn, w1: World, w: World, actions: seq<Action>, price: Currency, collateral: Currency, delivered: nat)
    requires AtRenewal(H, w1) && Ready(w) && Since(H, w1, w) && Inv(H, w)
    ensures var w' := RevisionStep(H, w, Event.Write(actions, price, collateral, delivered)); w'.detached.Some? ==> Since(H, w1, w')
  {
    OpenIsReady(H, w);
    var rev, c := w.held.value, Locked(w);
    if Affords(rev, price, w.base) && WriteProved(actions, |c.roots|, ValuesOf(WritePayment(rev, price, collateral))) {
      var p := WriteProposal(H, rev, actions, price, collateral, c.roots);
      WrittenSound(H, c, rev, w.totals[rev.id], actions, p);
      FileSizeCounts(|c.roots|, actions);
      WriteSince(H, w1, w, actions, p);
    }
  }

  lemma FormSince(H: HashFn, w1: World, w: World, id: ContractId, valid: seq<Currency>, missed: seq<Currency>, delivered: nat)
    requires AtRenewal(H, w1) && Since(H, w1, w) && w.open && id !in w1.host
    ensures var w' := FormStep(H, w, id, valid, missed, delivered); w'.detached.Some? ==> Since(H, w1, w')
  {
    assert SinceIf(true, H, w1, w);
    assert w.detached.Some? && delivered >= 4 ==> SinceIf(true, H, w1, FormStep(H, w, id, valid, missed, delivered));
  }

  /** No other RPC leaves a session that has renewed with its contract. */
  lemma OthersSince(H: HashFn, w1: World, w: World, e: Event)
    requires AtRenewal(H, w1) && Ready(w) && Since(H, w1, w) && !e.SectorRoots? && !e.Read? && !e.Write?
    ensures var w' := RevisionStep(H, w, e); w'.detached.Some? ==> Since(H, w1, w')
  {
    assert SinceIf(true, H, w1, w);
  }

  lemma RevisionSince(H: HashFn, w1: World, w: World, e: Event)
    requires AtRenewal(H, w1) && Inv(H, w) && Ready(w) && Since(H, w1, w) && RevisionStep(H, w, e).detached.Some?
    ensures Since(H, w1, RevisionStep(H, w, e))
  {
    match e
    case SectorRoots(offset, count, price, delivered) => RootsSince(H, w1, w, offset, count, price, delivered);
    case Read(sections, price, delivered) => ReadSince(H, w1, w, sections, price, delivered);
    case Write(actions, price, collateral, delivered) => WriteStepSince(H, w1, w, actions, price, collateral, delivered);
    case _ => OthersSince(H, w1, w, e);
  }

  /** Outside the RPCs on its contract, only a new price or a new contract leaves the session with it. */
  lemma OutsideSince(H: HashFn, w1: World, w: World, e: Event)
    requires AtRenewal(H, w1) && Ready(w) && !w.crashed && Since(H, w1, w) && (e.NewPrice? || e.Lock? || e.Drop?)
    ensures Step(H, w, e).detached.Some? ==> Since(H, w1, Step(H, w, e))
  {
    assert SinceIf(true, H, w1, w);
    if e.NewPrice? {
      assert SinceIf(true, H, w1, w.(base := e.base));
    }
  }

  lemma SinceReady(H: HashFn, w1: World, w: World)
    requires AtRenewal(H, w1) && Since(H, w1, w) && Inv(H, w)
    ensures Ready(w) && !w.crashed
  {
    assert SinceIf(true, H, w1, w);
    OpenIsReady(H, w);
  }

  lemma StepSince(H: HashFn, w1: World, w: World, e: Event)
    requires AtRenewal(H, w1) && (forall id :: id in w1.host ==> id in w.totals)
    requires Inv(H, w) && Possible(w, e) && Since(H, w1, w) && Step(H, w, e).detached.Some?
    ensures Since(H, w1, Step(H, w, e))
  {
    SinceReady(H, w1, w);
    if e.Form? {
      FormSince(H, w1, w, e.id, e.valid, e.missed, e.delivered);
    } else if e.NewPrice? || e.Lock? || e.Drop? {
      OutsideSince(H, w1, w, e);
    } else {
      assert Step(H, w, e) == RevisionStep(H, w, e);
      RevisionSince(H, w1, w, e);
    }
  }

  lemma {:induction false} RunSince(H: HashFn, w1: World, w: World, events: seq<Event>)
    requires AtRenewal(H, w1) && (forall id :: id in w1.host ==> id in w.totals)
    requires Inv(H, w) && Possibles(H, w, events) && StaysDetached(H, w, events) && Since(H, w1, w)
    ensures Since(H, w1, Run(H, w, events)) && Inv(H, Run(H, w, events))
    decreases |events|
  {
    if |events| > 0 {
      StepKeeps(H, w, events[0]);
      StepSince(H, w1, w, events[0]);
      RunSince(H, w1, Step(H, w, events[0]), events[1..]);
    }
  }

  /** What the two sides of a session have that has renewed the contract with the given revision: the
      host the final one until the renter's number moves, and then the renter's number again. */
  ghost predicate RenewedSessionHas(H: HashFn, first: Revision, final: Revision, rev: Revision, c: HostContract) {
    && first.number <= rev.number <= MAX_REVISION && rev.fileSize == SECTOR_SIZE * |c.roots| && HasRoot(H, rev.root, c.roots)
    && (rev.number == first.number ==> rev == first && c.rev == final && final.number == MAX_REVISION)
    && (rev.number > first.number ==> c.rev.number == rev.number && c.renterSig == rev && c.hostSig == c.rev)
    && (rev.number > first.number ==> (c.rev == rev <==> first.fileSize == 0))
  }

  /** Everything about the session that has renewed its contract, as long as it stays open.  Until the
      renter's number moves the host has the final revision, refuses every Read, and agrees with the
      renter only if that was its revision already.  From then on it has the renter's number again,
      reads, and agrees with the renter exactly if the contract had no sectors when it was renewed.
      All the while it has the renter's sectors, and the contracts of the table stay as they are,
      except that the new one has the data that the session adds. */
  lemma RenewedSession(H: HashFn, w: World, renewal: Event, events: seq<Event>)
    requires Inv(H, w) && !w.crashed && Ready(w) && w.detached.None?
    requires renewal.Renew? && renewal.delivered >= 4 && Possible(w, renewal)
    requires Possibles(H, Step(H, w, renewal), events) && StaysDetached(H, Step(H, w, renewal), events)
    ensures var w1, w' := Step(H, w, renewal), Run(H, Step(H, w, renewal), events);
      && w1.held == w.held && w1.detached.Some? && Ready(w')
      && RenewedSessionHas(H, w.held.value, Final(Locked(w), w.held.value, w.base, H.zero), w'.held.value, Locked(w'))
      && (forall id :: id in w1.host && id != renewal.id ==> id in w'.host && w'.host[id] == w1.host[id])
      && renewal.id in w1.host && renewal.id in w'.host
      && w'.host[renewal.id] == w1.host[renewal.id].(data := Locked(w').data)
  {
    RenewalStarts(H, w, renewal);
    var w1, w' := Step(H, w, renewal), Run(H, Step(H, w, renewal), events);
    RunSince(H, w1, w1, events);
    SinceHas(H, w1, w');
  }

  lemma SinceHas(H: HashFn, w1: World, w: World)
    requires AtRenewal(H, w1) && Since(H, w1, w) && Inv(H, w) && w1.held.value.fileSize < SECTOR_SIZE * LIMIT
    ensures Ready(w) && RenewedSessionHas(H, w1.held.value, w1.detached.value.contract.rev, w.held.value, Locked(w))
    ensures forall id :: id in w1.host && id != w1.detached.value.heir ==> id in w.host && w.host[id] == w1.host[id]
    ensures var heir := w1.detached.value.heir; heir in w.host && w.host[heir] == w1.host[heir].(data := Locked(w).data)
  {
    assert SinceIf(true, H, w1, w);
    OpenIsReady(H, w);
    if w.held.value.number > w1.held.value.number {
      SameIfEmpty(H, Locked(w), w.held.value, w1.held.value.fileSize);
    }
  }

  lemma RenewalStarts(H: HashFn, w: World, renewal: Event)
    requires Inv(H, w) && !w.crashed && Ready(w) && w.detached.None?
    requires renewal.Renew? && renewal.delivered >= 4 && Possible(w, renewal)
    ensures var w1 := Step(H, w, renewal);
      && Inv(H, w1) && AtRenewal(H, w1) && Since(H, w1, w1) && w1.held == w.held && w1.detached.value.heir == renewal.id
      && w1.detached.value.contract.rev == Final(Locked(w), w.held.value, w.base, H.zero)
      && (forall id :: id in w1.host ==> id in w1.totals) && w.held.value.fileSize < SECTOR_SIZE * LIMIT
  {
    StepKeeps(H, w, renewal);
    RenewKeeps(H, w, renewal.id, renewal.valid, renewal.missed, renewal.delivered);
    OpenIsReady(H, w);
    assert SinceIf(true, H, Step(H, w, renewal), Step(H, w, renewal));
  }

  lemma SameIfEmpty(H: HashFn, c: HostContract, rev: Revision, first: nat)
    requires Revised(c, rev) && c.rev.id == rev.id && c.rev.fileSize == Wrap(rev.fileSize - first)
    requires rev.fileSize < SECTOR_SIZE * LIMIT && first < SECTOR_SIZE * LIMIT
    requires c.rev.root == rev.root || (c.rev.root == H.zero && first > 0)
    ensures c.rev == rev <==> first == 0
  {
    assert c.rev.number == rev.number && c.rev.valid == rev.valid && c.rev.missed == rev.missed;
  }

  /** Every session that renews a contract with a sector can go on to disagree: the next SectorRoots
      makes the final contract revisable again, under a revision that says it has no sectors and that
      the renter has not signed. */
  lemma RenewedRevisable(H: HashFn, w: World, renewal: Event, price: Currency)
    requires Inv(H, w) && !w.crashed && Ready(w) && w.detached.None?
    requires renewal.Renew? && renewal.delivered >= 4 && Possible(w, renewal)
    requires Affords(w.held.value, price, w.base) && NumSectors(w.held.value) > 0
    requires var p := Proposal(w.held.value, price); Readable(RootsRequestSize(p.valid, p.missed), 4096)
    ensures var w1 := Step(H, w, renewal);
      && Ready(w1) && Locked(w1).rev.number == MAX_REVISION
      && var w2 := Step(H, w1, Event.SectorRoots(0, 1, price, 2));
        && Ready(w2) && w2.held == Some(Proposal(w.held.value, price)) && NumSectors(w2.held.value) > 0
        && Locked(w2).rev.number == w.held.value.number + 1 && Locked(w2).rev.fileSize == 0 && Locked(w2).rev.root == H.zero
        && Locked(w2).renterSig == w2.held.value != Locked(w2).rev == Locked(w2).hostSig
  {
    RenewKeeps(H, w, renewal.id, renewal.valid, renewal.missed, renewal.delivered);
    var w1 := Step(H, w, renewal);
    OpenIsReady(H, w1);
    ChargeKeeps(H, w1, price, true, true, 2);
  }

  /** In a session that has renewed, the host reads exactly when the renter's number has moved since. */
  lemma ReadAfterRenewal(H: HashFn, w: World, renewal: Event, events: seq<Event>, sections: seq<Section>, price: Currency)
    requires Inv(H, w) && !w.crashed && Ready(w) && w.detached.None?
    requires renewal.Renew? && renewal.delivered >= 4 && Possible(w, renewal)
    requires Possibles(H, Step(H, w, renewal), events) && StaysDetached(H, Step(H, w, renewal), events)
    ensures var w' := Run(H, Step(H, w, renewal), events);
      Ready(w') && (Affords(w'.held.value, price, w'.base) ==>
        var p := Proposal(w'.held.value, price);
        HostReads(Locked(w'), sections, ValuesOf(p)) <==>
          && w'.held.value.number > w.held.value.number && Readable(ReadRequestSize(|sections|, p.valid, p.missed), 4096)
          && forall i :: 0 <= i < |sections| ==> SectionOk(sections[i]))
  {
    RenewedSession(H, w, renewal, events);
  }

  /** The host crashes exactly when a session renews a second time. */
  lemma CrashesExactly(H: HashFn, w: World, e: Event)
    requires Inv(H, w)
    ensures Step(H, w, e).crashed <==> w.crashed || (e.Renew? && e.delivered >= 3 && Ready(w) && w.detached.Some?)
  {
    if Ready(w) {
      RevisionTable(H, w, e);
    }
  }
}
