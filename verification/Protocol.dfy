/** The renter-host protocol as a step system (renter/proto/session.go, ghost/session.go): one
    renter, one host, one session at a time, and a connection that may break after any message. */
module Protocol {
  import opened MerkleTree
  import opened ProofStacks
  import opened AppendStacks
  import opened DiffProofs
  import opened Formation
  import opened Messages
  import opened Contracts

  /** A contract of the host.  A signature is the revision it signs; data holds the sectors by
      their roots. */
  datatype HostContract = HostContract(rev: Revision, renterSig: Revision, hostSig: Revision,
                                       roots: seq<Hash>, data: map<Hash, seq<Segment>>)

  /** A renewed contract that has left the host's table but is still the one its session has locked.
      It shares its sector data with its heir, the contract that replaced it. */
  datatype Detached = Detached(contract: HostContract, heir: ContractId)

  /** Both sides.  The host has a table, a lock, the contract that a renewal left to the session, and
      may have crashed.  held is the revision in the renter's session, proposed the one it proposed
      in an RPC that did not complete, base the host's base price as the renter knows it; totals
      remembers what each contract was formed with. */
  datatype World = World(host: map<ContractId, HostContract>, locked: Option<ContractId>, detached: Option<Detached>,
                         crashed: bool, open: bool, held: Option<Revision>, proposed: Option<Revision>, base: Currency,
                         totals: map<ContractId, Currency>)

  /** One section of a Read, in bytes. */
  datatype Section = Section(root: Hash, offset: nat, length: nat) {
    /** Its segments. */
    function First(): nat { offset / SEGMENT_SIZE }
    function Past(): nat { (offset + length) / SEGMENT_SIZE }
  }

  /** delivered is how many of the RPC's messages arrive before the connection breaks. */
  datatype Event =
    | Form(id: ContractId, valid: seq<Currency>, missed: seq<Currency>, delivered: nat)
    | Renew(id: ContractId, valid: seq<Currency>, missed: seq<Currency>, delivered: nat)
    | Lock(id: ContractId, delivered: nat)
    | Unlock(delivered: nat)
    | NewPrice(base: Currency)
    | SectorRoots(offset: nat, count: nat, price: Currency, delivered: nat)
    | Read(sections: seq<Section>, price: Currency, delivered: nat)
    | Write(actions: seq<Action>, price: Currency, collateral: Currency, delivered: nat)
    | Drop

  // ---------- the session's contract ----------

  /** The host's end of the session points to a contract, in the table or detached from it. */
  predicate HasCurrent(host: map<ContractId, HostContract>, locked: Option<ContractId>, detached: Option<Detached>) {
    if detached.Some? then detached.value.heir in host else locked.Some? && locked.value in host
  }

  function Current(host: map<ContractId, HostContract>, locked: Option<ContractId>, detached: Option<Detached>): HostContract
    requires HasCurrent(host, locked, detached)
  {
    if detached.Some? then detached.value.contract else host[locked.value]
  }

  /** The table after a change of that contract: sector data is shared with the heir. */
  function TableWith(host: map<ContractId, HostContract>, locked: Option<ContractId>, detached: Option<Detached>,
    c: HostContract): map<ContractId, HostContract>
    requires HasCurrent(host, locked, detached)
  {
    if detached.None? then host[locked.value := c]
    else
      var heir := detached.value.heir;
      host[heir := host[heir].(data := c.data)]
  }

  function DetachedWith(detached: Option<Detached>, c: HostContract): Option<Detached> {
    if detached.None? then None else Some(Detached(c, detached.value.heir))
  }

  function Locked(w: World): HostContract
    requires HasCurrent(w.host, w.locked, w.detached)
  {
    Current(w.host, w.locked, w.detached)
  }

  function Put(w: World, c: HostContract): World
    requires HasCurrent(w.host, w.locked, w.detached)
  {
    w.(host := TableWith(w.host, w.locked, w.detached, c), detached := DetachedWith(w.detached, c))
  }

  // ---------- steps ----------

  /** The connection is gone: the host forgets the session's contract. */
  function Cut(w: World, proposed: Option<Revision>): World {
    w.(open := false, locked := None, detached := None, proposed := proposed)
  }

  /** There is a contract to revise, with the outputs of the renter's revision. */
  predicate Ready(w: World) {
    && w.open && w.held.Some? && w.locked.Some? && HasCurrent(w.host, w.locked, w.detached)
    && Balanced(w.held.value) && TakesValues(Locked(w), ValuesOf(w.held.value))
  }

  /** What the host makes of the values of a SectorRoots or Read. */
  function Charge(c: HostContract, v: NewValues, renterSig: Revision): HostContract {
    var rev := WithValues(c.rev, v);
    c.(rev := rev, renterSig := renterSig, hostSig := rev)
  }

  /** The revision a SectorRoots or Read proposes. */
  function Proposal(rev: Revision, price: Currency): Revision
    requires Balanced(rev) && price <= rev.valid[0]
  {
    Pay(rev, price, 0).(number := rev.number + 1)
  }

  /** A SectorRoots or Read that proposes p, and whose request the host accepts or not; it serves it
      when it has all that was asked for, and gives up after committing when it has not. */
  function ChargeStep(w: World, p: Revision, accepts: bool, serves: bool, delivered: nat): World
    requires Ready(w)
  {
    if delivered == 0 || !accepts then Cut(w, Some(p))
    else
      var w' := Put(w, Charge(Locked(w), ValuesOf(p), p));
      if delivered == 1 || !serves then Cut(w', Some(p)) else w'.(held := Some(p))
  }

  /** As many values as the contract has outputs. */
  predicate TakesValues(c: HostContract, v: NewValues) {
    |v.valid| == |c.rev.valid| && |v.missed| == |c.rev.missed|
  }

  /** rpcSectorRoots' checks. */
  predicate HostHasRoots(c: HostContract, offset: nat, count: nat, v: NewValues) {
    offset + count <= |c.roots| && TakesValues(c, v) && Readable(RootsRequestSize(v.valid, v.missed), 4096)
  }

  function SectorRootsStep(w: World, offset: nat, count: nat, price: Currency, delivered: nat): World
    requires Ready(w)
  {
    if offset + count > NumSectors(w.held.value) || count == 0 || !Affords(w.held.value, price, w.base) then w
    else
      var p := Proposal(w.held.value, price);
      ChargeStep(w, p, HostHasRoots(Locked(w), offset, count, ValuesOf(p)), true, delivered)
  }

  /** rpcRead's checks of a section. */
  predicate SectionOk(s: Section) {
    && 0 < s.length && s.offset + s.length <= SECTOR_SIZE
    && s.offset % SEGMENT_SIZE == 0 && s.length % SEGMENT_SIZE == 0
  }

  /** rpcRead's checks. */
  predicate HostReads(c: HostContract, sections: seq<Section>, v: NewValues) {
    && c.rev.number != MAX_REVISION && TakesValues(c, v) && Readable(ReadRequestSize(|sections|, v.valid, v.missed), 4096)
    && forall i :: 0 <= i < |sections| ==> SectionOk(sections[i])
  }

  predicate HostHasSectors(c: HostContract, sections: seq<Section>) {
    forall i :: 0 <= i < |sections| ==> sections[i].root in c.data
  }

  function ReadStep(w: World, sections: seq<Section>, price: Currency, delivered: nat): World
    requires Ready(w)
  {
    if |sections| == 0 || !Affords(w.held.value, price, w.base) then w
    else
      var p := Proposal(w.held.value, price);
      ChargeStep(w, p, HostReads(Locked(w), sections, ValuesOf(p)), HostHasSectors(Locked(w), sections), delivered)
  }

  /** The sectors that the actions append, by their roots. */
  ghost function Gained(H: HashFn, actions: seq<Action>): map<Hash, seq<Segment>> {
    if |actions| == 0 then map[]
    else
      var rest := Gained(H, actions[1..]);
      match actions[0]
      case Append(sector) => map[Root(H, LeafHashes(H, sector)) := sector] + rest
      case _ => rest
  }

  /** What the host makes of a Write it accepts. */
  ghost function Written(H: HashFn, c: HostContract, actions: seq<Action>, v: NewValues, renterSig: Revision): HostContract
    requires ValidActions(actions, |c.roots|)
  {
    var roots := ApplyAll(H, actions, c.roots);
    var rev := WithValues(c.rev, v).(fileSize := Wrap(FileSizeAfter(c.rev.fileSize, actions)), root := Root(H, roots));
    HostContract(rev, renterSig, rev, roots, c.data + Gained(H, actions))
  }

  function Least(a: nat, b: nat): nat {
    if a <= b then a else b
  }

  /** The payment of a Write. */
  function WritePayment(rev: Revision, price: Currency, collateral: Currency): Revision
    requires Balanced(rev) && price <= rev.valid[0]
  {
    Pay(rev, price, Least(collateral, rev.missed[1])).(number := rev.number + 1)
  }

  /** The renter's check of the Merkle proof ends: it is skipped for a contract that becomes empty,
      and panics on trees that its stack cannot hold. */
  predicate Checkable(actions: seq<Action>, n: nat)
    requires ValidActions(actions, n)
  {
    FinalSize(actions, n) == 0 || (n < LIMIT && FinalSize(actions, n) < LIMIT)
  }

  /** A Write of a contract of n sectors gets as far as the renter's signature: the host reads the
      request and accepts the actions, and the renter can read and check the proof. */
  ghost predicate WriteProved(actions: seq<Action>, n: nat, v: NewValues) {
    && Readable(WriteRequestSize(actions, v.valid, v.missed), 5 * SECTOR_SIZE) && ValidActions(actions, n)
    && Readable(ProofMessageSize(ProofHashes(actions, n)), 4096) && Checkable(actions, n)
  }

  /** The revision that the renter signs for a Write of the given sectors. */
  ghost function WriteProposal(H: HashFn, rev: Revision, actions: seq<Action>, price: Currency, collateral: Currency,
    roots: seq<Hash>): Revision
    requires Balanced(rev) && price <= rev.valid[0] && ValidActions(actions, |roots|)
  {
    WritePayment(rev, price, collateral).(fileSize := Wrap(FileSizeAfter(rev.fileSize, actions)),
                                          root := Root(H, ApplyAll(H, actions, roots)))
  }

  /** Write: four messages.  The host commits on the renter's signature, which it gets only after
      the renter has checked the Merkle proof. */
  ghost function WriteStep(H: HashFn, w: World, actions: seq<Action>, price: Currency, collateral: Currency, delivered: nat): World
    requires Ready(w)
  {
    var rev := w.held.value;
    if |actions| == 0 || !Affords(rev, price, w.base) then w
    else
      var c := Locked(w);
      if delivered < 3 || !WriteProved(actions, |c.roots|, ValuesOf(WritePayment(rev, price, collateral))) then Cut(w, None)
      else
        var p := WriteProposal(H, rev, actions, price, collateral, c.roots);
        var w' := Put(w, Written(H, c, actions, ValuesOf(p), p));
        if delivered == 3 then Cut(w', Some(p)) else w'.(held := Some(p))
  }

  /** The no-op revision both sides build for a new contract. */
  function Initial(id: ContractId, fileSize: nat, root: Hash, valid: seq<Currency>, missed: seq<Currency>): Revision {
    Revision(id, 1, fileSize, root, valid, missed)
  }

  function Sum(s: seq<Currency>): Currency {
    if |s| == 0 then 0 else s[0] + Sum(s[1..])
  }

  /** The open session, or a new one. */
  function Connected(w: World): World {
    if w.open then w else w.(open := true, held := None, proposed := None)
  }

  /** FormContract, in the open session or in a new one: four messages, and the host enters the
      contract on the third.  A contract that is locked stays so. */
  function FormStep(H: HashFn, w: World, id: ContractId, valid: seq<Currency>, missed: seq<Currency>, delivered: nat): World {
    var w0 := Connected(w);
    if delivered < 3 then Cut(w0, None)
    else
      var rev := Initial(id, 0, H.zero, valid, missed);
      var w' := w0.(host := w0.host[id := HostContract(rev, rev, rev, [], map[])], totals := w0.totals[id := Sum(valid)]);
      if delivered == 3 then Cut(w', Some(rev)) else w'
  }

  /** The final revision that the host makes of a contract that is renewed. */
  function Final(c: HostContract, held: Revision, base: Currency, zero: Hash): Revision
    requires Balanced(held) && |c.rev.valid| == 2 && |c.rev.missed| == 3
  {
    var r := RenterFinal(held, base, zero);
    HostFinal(c.rev, r.valid, r.missed, zero)
  }

  /** RenewContract: the sectors move to the new contract, and the old one leaves the table but stays
      with the session, with its final revision and the signatures of the one before.  The session's
      own revision stays too.  To renew it again is to dereference what is no longer in the table. */
  function RenewStep(H: HashFn, w: World, id: ContractId, valid: seq<Currency>, missed: seq<Currency>, delivered: nat): World
    requires Ready(w)
  {
    var c := Locked(w);
    if delivered < 3 then Cut(w, None)
    else if w.detached.Some? then Cut(w, None).(crashed := true)
    else
      var rev := Initial(id, w.held.value.fileSize, w.held.value.root, valid, missed);
      var final := Final(c, w.held.value, w.base, H.zero);
      var w' := w.(host := w.host[id := HostContract(rev, rev, rev, c.roots, c.data)] - {w.locked.value},
                   totals := w.totals[id := Sum(valid)], detached := Some(Detached(c.(rev := final), id)));
      if delivered == 3 then Cut(w', Some(rev)) else w'
  }

  /** Lock, in the open session or in a new one.  The renter checks both signatures. */
  function LockStep(w: World, id: ContractId, delivered: nat): World {
    if w.open && w.locked.Some? then Cut(w, None)
    else
      var w' := w.(open := true, locked := None, held := None, proposed := None);
      if delivered < 2 || id !in w.host || w.host[id].renterSig != w.host[id].rev || w.host[id].hostSig != w.host[id].rev then Cut(w', None)
      else w'.(locked := Some(id), held := Some(w.host[id].rev))
  }

  function UnlockStep(w: World, delivered: nat): World {
    if delivered == 0 then Cut(w, None) else w.(locked := None, detached := None, held := None)
  }

  /** Nothing happens any more once the host has crashed. */
  ghost function Step(H: HashFn, w: World, e: Event): World {
    if w.crashed then w
    else
      match e
      case Form(id, valid, missed, delivered) => FormStep(H, w, id, valid, missed, delivered)
      case Lock(id, delivered) => LockStep(w, id, delivered)
      case NewPrice(base) => w.(base := base)
      case Drop => Cut(w, if w.open then None else w.proposed)
      case _ => if Ready(w) then RevisionStep(H, w, e) else w
  }

  /** The RPCs on the session's contract. */
  ghost function RevisionStep(H: HashFn, w: World, e: Event): World
    requires Ready(w)
  {
    match e
    case Renew(id, valid, missed, delivered) => RenewStep(H, w, id, valid, missed, delivered)
    case Unlock(delivered) => UnlockStep(w, delivered)
    case SectorRoots(offset, count, price, delivered) => SectorRootsStep(w, offset, count, price, delivered)
    case Read(sections, price, delivered) => ReadStep(w, sections, price, delivered)
    case Write(actions, price, collateral, delivered) => WriteStep(H, w, actions, price, collateral, delivered)
    case _ => w
  }

  /** What may happen: a new contract has an id of its own and the outputs that FormPayouts and
      RenewPayouts give. */
  ghost predicate Possible(w: World, e: Event) {
    e.Form? || e.Renew? ==> e.id !in w.totals && BalancedOutputs(e.valid, e.missed)
  }

  // ---------- what every step keeps ----------

  /** A contract of the table: its sectors are what its revision says, both have signed it, and
      its payouts are balanced and add up to what it was formed with.  It has fewer sectors than
      the renter's proof stack can hold, because the renter signs no Write that exceeds them. */
  ghost predicate Sound(H: HashFn, c: HostContract, id: ContractId, total: Currency) {
    && c.rev.id == id && Balanced(c.rev) && Total(c.rev) == total && c.rev.number <= MAX_REVISION
    && c.rev.fileSize == SECTOR_SIZE * |c.roots| && |c.roots| < LIMIT && HasRoot(H, c.rev.root, c.roots)
    && c.renterSig == c.rev && c.hostSig == c.rev
    && DataSound(H, c.roots, c.data)
  }

  /** Stated for every v, like DataSound, so that it is unfolded only where needed. */
  ghost predicate HasRoot(H: HashFn, root: Hash, roots: seq<Hash>) {
    forall v: bool :: HasRootIf(v, H, root, roots)
  }

  ghost predicate HasRootIf(v: bool, H: HashFn, root: Hash, roots: seq<Hash>) {
    v ==> root == Root(H, roots)
  }

  /** The host has the data of every sector, and keeps data under its own root. */
  ghost predicate DataSound(H: HashFn, roots: seq<Hash>, data: map<Hash, seq<Segment>>) {
    forall v: bool :: DataSoundIf(v, H, roots, data)
  }

  ghost predicate DataSoundIf(v: bool, H: HashFn, roots: seq<Hash>, data: map<Hash, seq<Segment>>) {
    v ==>
    && (forall i :: 0 <= i < |roots| ==> roots[i] in data)
    && (forall r :: r in data ==> SectorSound(H, r, data[r]))
  }

  ghost predicate SectorSound(H: HashFn, r: Hash, sector: seq<Segment>) {
    |sector| == SEGMENTS && r == Root(H, LeafHashes(H, sector))
  }

  ghost predicate TableSound(H: HashFn, w: World) {
    forall id :: id in w.host ==> id in w.totals && Sound(H, w.host[id], id, w.totals[id])
  }

  /** The host has exactly this revision. */
  predicate HostHas(w: World, rev: Revision) {
    rev.id in w.host && w.host[rev.id].rev == rev
  }

  /** A contract as the renter takes it to be. */
  function Seen(c: HostContract, held: Revision): HostContract {
    c.(rev := held, renterSig := held, hostSig := held)
  }

  /** Just renewed: final, and signed as it was before. */
  ghost predicate Cleared(H: HashFn, c: HostContract, held: Revision) {
    c.rev.number == MAX_REVISION && c.rev.fileSize == 0 && c.rev.root == H.zero && c.renterSig == held && c.hostSig == held
  }

  /** Revised since: the renter's number and payouts, and its signature of its own revision. */
  ghost predicate Revised(c: HostContract, held: Revision) {
    c.rev.number == held.number && ValuesOf(c.rev) == ValuesOf(held) && c.renterSig == held && c.hostSig == c.rev
  }

  /** A session that has renewed its contract: the renter's revision describes the sectors, and the
      heir in the table has their data. */
  ghost predicate Parted(H: HashFn, w: World)
    requires w.detached.Some? && w.held.Some?
  {
    var c, heir, rev := w.detached.value.contract, w.detached.value.heir, w.held.value;
    && rev.id !in w.host && rev.id in w.totals && Sound(H, Seen(c, rev), rev.id, w.totals[rev.id])
    && heir in w.host && w.host[heir].data == c.data
    && c.rev.id == rev.id && c.rev.fileSize == Wrap(c.rev.fileSize) && TakesValues(c, ValuesOf(rev))
    && (Cleared(H, c, rev) || Revised(c, rev))
  }

  /** In an open session that has not renewed its contract both sides have the same revision; after
      an interrupted RPC the host has the renter's or the one it proposed, unless the contract has
      been renewed. */
  ghost predicate Agreed(H: HashFn, w: World) {
    && (w.crashed ==> !w.open) && (w.held.Some? ==> Balanced(w.held.value))
    && (!w.open || w.held.None? ==> w.locked.None? && w.detached.None?)
    && (w.open && w.held.Some? ==> w.locked == Some(w.held.value.id))
    && (w.open && w.held.Some? && w.detached.None? ==> HostHas(w, w.held.value))
    && (w.open && w.held.Some? && w.detached.Some? ==> Parted(H, w))
    && (!w.open && w.held.Some? ==>
          HostHas(w, w.held.value) || (w.proposed.Some? && HostHas(w, w.proposed.value)) || w.held.value.id !in w.host)
  }

  ghost predicate Inv(H: HashFn, w: World) {
    TableSound(H, w) && Agreed(H, w)
  }

  /** From one state to a later one: contracts keep their totals; a contract that is still in the
      table has the same revision or one with a higher number, which leaves the renter at least
      five times the base price, costs it no less than nothing, and takes nothing from the host. */
  ghost predicate Advances(w: World, w': World, base: Currency) {
    && (forall id :: id in w.totals ==> id in w'.totals && w'.totals[id] == w.totals[id])
    && (forall id :: id in w.host && id in w'.host ==> Later(w.host[id].rev, w'.host[id].rev, base))
  }

  ghost predicate Later(a: Revision, b: Revision, base: Currency) {
    b == a || (a.number < b.number && Balanced(a) && Balanced(b) && 5 * base <= b.valid[0] <= a.valid[0] && a.valid[1] <= b.valid[1])
  }

  /** An open session with a revision is ready, and what the host has locked is what the renter sees. */
  lemma OpenIsReady(H: HashFn, w: World)
    requires Inv(H, w) && w.open && w.held.Some?
    ensures Ready(w) && w.held.value.id in w.totals
    ensures Sound(H, Seen(Locked(w), w.held.value), w.held.value.id, w.totals[w.held.value.id])
    ensures w.detached.None? ==> Locked(w) == Seen(Locked(w), w.held.value)
    ensures Locked(w).rev.fileSize == Wrap(Locked(w).rev.fileSize)
  {
    var id := w.held.value.id;
    if w.detached.None? {
      assert Sound(H, w.host[id], id, w.totals[id]);
    }
  }

  lemma CutKeeps(H: HashFn, w: World, p: Option<Revision>)
    requires Inv(H, w) && w.open
    ensures Inv(H, Cut(w, p)) && Advances(w, Cut(w, p), w.base)
  {
  }

  /** c is what the host makes of the session's contract with the proposed p: its very revision, or, in
      a session that has renewed, the same values. */
  ghost predicate Commits(H: HashFn, w: World, c: HostContract, p: Revision)
    requires Ready(w)
  {
    && p.id == w.held.value.id && Later(w.held.value, p, w.base)
    && p.id in w.totals && Sound(H, Seen(c, p), p.id, w.totals[p.id])
    && (w.detached.None? ==> c == Seen(c, p))
    && (w.detached.Some? ==> c.rev.id == p.id && c.rev.fileSize == Wrap(c.rev.fileSize) && Revised(c, p))
    && (w.detached.Some? ==> DataSound(H, w.host[w.detached.value.heir].roots, c.data))
  }

  lemma CommitTable(H: HashFn, w: World, c: HostContract, p: Revision)
    requires Inv(H, w) && Ready(w) && Commits(H, w, c, p)
    ensures TableSound(H, Put(w, c)) && Advances(w, Put(w, c), w.base)
  {
    var w' := Put(w, c);
    forall i | i in w'.host ensures i in w.totals && Sound(H, w'.host[i], i, w.totals[i]) {
      assert i in w.host && Sound(H, w.host[i], i, w.totals[i]);
    }
    assert forall i :: i in w.host && i in w'.host ==> Later(w.host[i].rev, w'.host[i].rev, w.base);
  }

  /** The host commits p; the renter learns of it, or the connection breaks first. */
  lemma CommitKeeps(H: HashFn, w: World, c: HostContract, p: Revision)
    requires Inv(H, w) && Ready(w) && Commits(H, w, c, p)
    ensures var w' := Put(w, c);
      && Inv(H, Cut(w', Some(p))) && Inv(H, w'.(held := Some(p)))
      && Advances(w, Cut(w', Some(p)), w.base) && Advances(w, w'.(held := Some(p)), w.base)
  {
    CommitTable(H, w, c, p);
  }

  /** Both sides build the same revision from the same revision, and apart from that the same values. */
  lemma ChargeKeeps(H: HashFn, w: World, price: Currency, accepts: bool, serves: bool, delivered: nat)
    requires Inv(H, w) && Ready(w) && Affords(w.held.value, price, w.base)
    ensures var w' := ChargeStep(w, Proposal(w.held.value, price), accepts, serves, delivered);
      Inv(H, w') && Advances(w, w', w.base)
  {
    OpenIsReady(H, w);
    var rev, c := w.held.value, Locked(w);
    var p := Proposal(rev, price);
    CutKeeps(H, w, Some(p));
    ChargeSound(H, c, rev, w.totals[rev.id], price, p);
    if w.detached.Some? {
      var heir := w.detached.value.heir;
      assert Sound(H, w.host[heir], heir, w.totals[heir]);
    }
    CommitKeeps(H, w, Charge(c, ValuesOf(p), p), p);
  }

  lemma ChargeSound(H: HashFn, c: HostContract, rev: Revision, total: Currency, price: Currency, p: Revision)
    requires Sound(H, Seen(c, rev), rev.id, total) && price <= rev.valid[0] && rev.number < MAX_REVISION && p == Proposal(rev, price)
    ensures Sound(H, Seen(Charge(c, ValuesOf(p), p), p), rev.id, total) && Revised(Charge(c, ValuesOf(p), p), p)
    ensures c.rev == rev ==> Charge(c, ValuesOf(p), p).rev == p
  {
    assert c.rev == rev ==> WithValues(c.rev, ValuesOf(p)) == p;
  }

  lemma {:induction false} GainedSound(H: HashFn, actions: seq<Action>, n: nat)
    requires ValidActions(actions, n)
    ensures forall r :: r in Gained(H, actions) ==> SectorSound(H, r, Gained(H, actions)[r])
    decreases |actions|
  {
    if |actions| > 0 {
      GainedSound(H, actions[1..], SizeAfter(actions[0], n));
    }
  }

  /** Every root after the actions was there before or belongs to an appended sector. */
  lemma {:induction false} RootsHaveData(H: HashFn, actions: seq<Action>, roots: seq<Hash>, have: set<Hash>)
    requires ValidActions(actions, |roots|) && forall i :: 0 <= i < |roots| ==> roots[i] in have
    ensures forall i :: 0 <= i < FinalSize(actions, |roots|) ==>
      ApplyAll(H, actions, roots)[i] in have || ApplyAll(H, actions, roots)[i] in Gained(H, actions)
    decreases |actions|
  {
    if |actions| > 0 {
      var next := Apply(H, actions[0], roots);
      var have' := if actions[0].Append? then have + {Root(H, LeafHashes(H, actions[0].sector))} else have;
      ApplyHasData(H, actions[0], roots, have);
      RootsHaveData(H, actions[1..], next, have');
    }
  }

  lemma ApplyHasData(H: HashFn, a: Action, roots: seq<Hash>, have: set<Hash>)
    requires ValidAction(a, |roots|) && forall i :: 0 <= i < |roots| ==> roots[i] in have
    ensures var have' := if a.Append? then have + {Root(H, LeafHashes(H, a.sector))} else have;
      forall i :: 0 <= i < |Apply(H, a, roots)| ==> Apply(H, a, roots)[i] in have'
  {
  }

  /** The host's new contract has the sectors of the revision that the renter signed, and if it had
      the renter's revision it has the new one. */
  lemma WrittenSound(H: HashFn, c: HostContract, rev: Revision, total: Currency, actions: seq<Action>, p: Revision)
    requires Sound(H, Seen(c, rev), rev.id, total) && ValidActions(actions, |c.roots|) && FinalSize(actions, |c.roots|) < LIMIT
    requires p.id == rev.id && p.number <= MAX_REVISION && Balanced(p) && Total(p) == total
    requires p.fileSize == Wrap(FileSizeAfter(rev.fileSize, actions)) && p.root == Root(H, ApplyAll(H, actions, c.roots))
    ensures var c' := Written(H, c, actions, ValuesOf(p), p);
      && Sound(H, Seen(c', p), rev.id, total) && Revised(c', p) && (c.rev == rev ==> c'.rev == p)
      && p.fileSize == SECTOR_SIZE * FinalSize(actions, |c.roots|)
  {
    FileSizeCounts(|c.roots|, actions);
    GainedData(H, c.roots, c.roots, c.data, actions);
    assert HasRootIf(true, H, p.root, ApplyAll(H, actions, c.roots));
  }

  /** The data that a Write adds is sound, for the contract and for any other that shares it. */
  lemma GainedData(H: HashFn, roots: seq<Hash>, others: seq<Hash>, data: map<Hash, seq<Segment>>, actions: seq<Action>)
    requires DataSound(H, roots, data) && DataSound(H, others, data) && ValidActions(actions, |roots|)
    ensures DataSound(H, ApplyAll(H, actions, roots), data + Gained(H, actions)) && DataSound(H, others, data + Gained(H, actions))
  {
    assert DataSoundIf(true, H, roots, data) && DataSoundIf(true, H, others, data);
    GainedSound(H, actions, |roots|);
    RootsHaveData(H, actions, roots, data.Keys);
    assert DataSoundIf(true, H, ApplyAll(H, actions, roots), data + Gained(H, actions));
    assert DataSoundIf(true, H, others, data + Gained(H, actions));
  }

  lemma WriteKeeps(H: HashFn, w: World, actions: seq<Action>, price: Currency, collateral: Currency, delivered: nat)
    requires Inv(H, w) && Ready(w)
    ensures var w' := WriteStep(H, w, actions, price, collateral, delivered);
      Inv(H, w') && Advances(w, w', w.base)
  {
    var rev, c := w.held.value, Locked(w);
    if |actions| > 0 && Affords(rev, price, w.base) {
      CutKeeps(H, w, None);
      if WriteProved(actions, |c.roots|, ValuesOf(WritePayment(rev, price, collateral))) {
        WriteCommits(H, w, actions, price, collateral);
      }
    }
  }

  lemma WriteCommits(H: HashFn, w: World, actions: seq<Action>, price: Currency, collateral: Currency)
    requires Inv(H, w) && Ready(w) && Affords(w.held.value, price, w.base)
    requires ValidActions(actions, |Locked(w).roots|) && Checkable(actions, |Locked(w).roots|)
    ensures var p := WriteProposal(H, w.held.value, actions, price, collateral, Locked(w).roots);
      var w' := Put(w, Written(H, Locked(w), actions, ValuesOf(p), p));
      && Inv(H, Cut(w', Some(p))) && Inv(H, w'.(held := Some(p)))
      && Advances(w, Cut(w', Some(p)), w.base) && Advances(w, w'.(held := Some(p)), w.base)
  {
    OpenIsReady(H, w);
    var rev, c := w.held.value, Locked(w);
    var p := WriteProposal(H, rev, actions, price, collateral, c.roots);
    WrittenSound(H, c, rev, w.totals[rev.id], actions, p);
    if w.detached.Some? {
      var heir := w.detached.value.heir;
      assert Sound(H, w.host[heir], heir, w.totals[heir]);
      GainedData(H, c.roots, w.host[heir].roots, c.data, actions);
    }
    CommitKeeps(H, w, Written(H, c, actions, ValuesOf(p), p), p);
  }

  lemma InitialSound(H: HashFn, id: ContractId, roots: seq<Hash>, root: Hash, data: map<Hash, seq<Segment>>,
    valid: seq<Currency>, missed: seq<Currency>)
    requires BalancedOutputs(valid, missed) && DataSound(H, roots, data) && HasRoot(H, root, roots) && |roots| < LIMIT
    ensures var rev := Initial(id, SECTOR_SIZE * |roots|, root, valid, missed);
      Sound(H, HostContract(rev, rev, rev, roots, data), id, Sum(valid))
  {
    assert valid[1..][1..] == [];
    assert Sum(valid) == valid[0] + Sum(valid[1..]) == valid[0] + (valid[1] + Sum(valid[1..][1..]));
  }

  lemma TableExtended(H: HashFn, w: World, id: ContractId, c: HostContract, total: Currency)
    requires TableSound(H, w) && id !in w.totals && Sound(H, c, id, total)
    ensures TableSound(H, w.(host := w.host[id := c], totals := w.totals[id := total]))
    ensures Advances(w, w.(host := w.host[id := c], totals := w.totals[id := total]), w.base)
  {
  }

  /** Forming a contract disturbs neither the session nor what it has locked; the contract that is
      handed back is the host's. */
  lemma FormKeeps(H: HashFn, w: World, id: ContractId, valid: seq<Currency>, missed: seq<Currency>, delivered: nat)
    requires Inv(H, w) && !w.crashed && id !in w.totals && BalancedOutputs(valid, missed)
    ensures var w' := FormStep(H, w, id, valid, missed, delivered);
      && Inv(H, w') && Advances(w, w', w.base)
      && (delivered >= 3 ==> HostHas(w', Initial(id, 0, H.zero, valid, missed)))
      && (delivered >= 4 && w.open ==> w' == w.(host := w'.host, totals := w'.totals))
  {
    assert HasRootIf(true, H, H.zero, []) && DataSoundIf(true, H, [], map[]);
    InitialSound(H, id, [], H.zero, map[], valid, missed);
    var rev := Initial(id, 0, H.zero, valid, missed);
    TableExtended(H, w, id, HostContract(rev, rev, rev, [], map[]), Sum(valid));
  }

  /** A renewal takes the contract out of the table and leaves the session open on it; the contract
      that is handed back is the host's. */
  lemma RenewKeeps(H: HashFn, w: World, id: ContractId, valid: seq<Currency>, missed: seq<Currency>, delivered: nat)
    requires Inv(H, w) && Ready(w) && id !in w.totals && BalancedOutputs(valid, missed)
    ensures var w' := RenewStep(H, w, id, valid, missed, delivered);
      && Inv(H, w') && Advances(w, w', w.base)
      && (w.detached.None? && delivered >= 3 ==>
            HostHas(w', Initial(id, w.held.value.fileSize, w.held.value.root, valid, missed)) && w.held.value.id !in w'.host)
      && (w.detached.None? && delivered >= 4 ==> Ready(w') && w'.held == w.held && Cleared(H, Locked(w'), w.held.value))
  {
    OpenIsReady(H, w);
    CutKeeps(H, w, None);
    if w.detached.None? {
      var c, rev := Locked(w), w.held.value;
      InitialSound(H, id, c.roots, rev.root, c.data, valid, missed);
      var init := Initial(id, rev.fileSize, rev.root, valid, missed);
      TableExtended(H, w, id, HostContract(init, init, init, c.roots, c.data), Sum(valid));
    }
  }

  lemma LockKeeps(H: HashFn, w: World, id: ContractId, delivered: nat)
    requires Inv(H, w) && !w.crashed
    ensures Inv(H, LockStep(w, id, delivered)) && Advances(w, LockStep(w, id, delivered), w.base)
  {
  }

  /** Every step keeps the invariant and advances. */
  lemma StepKeeps(H: HashFn, w: World, e: Event)
    requires Inv(H, w) && Possible(w, e)
    ensures Inv(H, Step(H, w, e)) && Advances(w, Step(H, w, e), w.base)
  {
    if !w.crashed {
      match e
      case Form(id, valid, missed, delivered) => FormKeeps(H, w, id, valid, missed, delivered);
      case Lock(id, delivered) => LockKeeps(H, w, id, delivered);
      case NewPrice(_) =>
      case Drop => DropKeeps(H, w);
      case _ =>
        if Ready(w) {
          RevisionKeeps(H, w, e);
        }
    }
  }

  lemma SectorRootsKeeps(H: HashFn, w: World, offset: nat, count: nat, price: Currency, delivered: nat)
    requires Inv(H, w) && Ready(w)
    ensures var w' := SectorRootsStep(w, offset, count, price, delivered); Inv(H, w') && Advances(w, w', w.base)
  {
    if Affords(w.held.value, price, w.base) {
      var p := Proposal(w.held.value, price);
      ChargeKeeps(H, w, price, HostHasRoots(Locked(w), offset, count, ValuesOf(p)), true, delivered);
    }
  }

  lemma ReadKeeps(H: HashFn, w: World, sections: seq<Section>, price: Currency, delivered: nat)
    requires Inv(H, w) && Ready(w)
    ensures var w' := ReadStep(w, sections, price, delivered); Inv(H, w') && Advances(w, w', w.base)
  {
    if Affords(w.held.value, price, w.base) {
      var p := Proposal(w.held.value, price);
      ChargeKeeps(H, w, price, HostReads(Locked(w), sections, ValuesOf(p)), HostHasSectors(Locked(w), sections), delivered);
    }
  }

  lemma RevisionKeeps(H: HashFn, w: World, e: Event)
    requires Inv(H, w) && Possible(w, e) && Ready(w)
    ensures Inv(H, RevisionStep(H, w, e)) && Advances(w, RevisionStep(H, w, e), w.base)
  {
    match e
    case Renew(id, valid, missed, delivered) => RenewKeeps(H, w, id, valid, missed, delivered);
    case SectorRoots(offset, count, price, delivered) => SectorRootsKeeps(H, w, offset, count, price, delivered);
    case Read(sections, price, delivered) => ReadKeeps(H, w, sections, price, delivered);
    case Write(actions, price, collateral, delivered) => WriteKeeps(H, w, actions, price, collateral, delivered);
    case Unlock(delivered) => UnlockKeeps(H, w, delivered);
    case _ =>
  }

  lemma UnlockKeeps(H: HashFn, w: World, delivered: nat)
    requires Inv(H, w) && Ready(w)
    ensures Inv(H, UnlockStep(w, delivered)) && Advances(w, UnlockStep(w, delivered), w.base)
  {
  }

  lemma DropKeeps(H: HashFn, w: World)
    requires Inv(H, w)
    ensures var w' := Cut(w, if w.open then None else w.proposed); Inv(H, w') && Advances(w, w', w.base)
  {
  }

  // ---------- runs ----------

  /** No contracts, no session. */
  function Start(base: Currency): World {
    World(map[], None, None, false, false, None, None, base, map[])
  }

  ghost function Run(H: HashFn, w: World, events: seq<Event>): World
    decreases |events|
  {
    if |events| == 0 then w else Run(H, Step(H, w, events[0]), events[1..])
  }

  ghost predicate Possibles(H: HashFn, w: World, events: seq<Event>)
    decreases |events|
  {
    |events| == 0 || (Possible(w, events[0]) && Possibles(H, Step(H, w, events[0]), events[1..]))
  }

  /** Over any run: the invariant holds, no contract ever changes its total, ids do not come back,
      and revision numbers only rise. */
  lemma {:induction false} RunKeeps(H: HashFn, w: World, events: seq<Event>)
    requires Inv(H, w) && Possibles(H, w, events)
    ensures Inv(H, Run(H, w, events)) && Advances(w, Run(H, w, events), 0)
    decreases |events|
  {
    if |events| > 0 {
      StepKeeps(H, w, events[0]);
      var next := Step(H, w, events[0]);
      RunKeeps(H, next, events[1..]);
      StepGone(H, w, events[0]);
      RunGone(H, next, events[1..]);
      AdvancesTwice(w, next, Run(H, next, events[1..]), w.base);
    }
  }

  /** A contract that left the table does not return. */
  ghost predicate StaysGone(w: World, w': World) {
    forall id :: id in w.totals && id !in w.host ==> id !in w'.host
  }

  lemma PutKeys(w: World, c: HostContract)
    requires Ready(w)
    ensures Put(w, c).host.Keys == w.host.Keys && Put(w, c).crashed == w.crashed
  {
  }

  lemma ChargeTable(w: World, p: Revision, accepts: bool, serves: bool, delivered: nat)
    requires Ready(w)
    ensures var w' := ChargeStep(w, p, accepts, serves, delivered); w'.host.Keys == w.host.Keys && w'.crashed == w.crashed
  {
    PutKeys(w, Charge(Locked(w), ValuesOf(p), p));
  }

  lemma WriteTable(H: HashFn, w: World, actions: seq<Action>, price: Currency, collateral: Currency, delivered: nat)
    requires Ready(w)
    ensures var w' := WriteStep(H, w, actions, price, collateral, delivered); w'.host.Keys == w.host.Keys && w'.crashed == w.crashed
  {
    var rev, c := w.held.value, Locked(w);
    if Affords(rev, price, w.base) && ValidActions(actions, |c.roots|) {
      var p := WriteProposal(H, rev, actions, price, collateral, c.roots);
      PutKeys(w, Written(H, c, actions, ValuesOf(p), p));
    }
  }

  /** The RPCs on the session's contract bring no other into the table, and only a renewal takes one
      out. */
  lemma RevisionTable(H: HashFn, w: World, e: Event)
    requires Ready(w)
    ensures !e.Renew? ==> RevisionStep(H, w, e).host.Keys == w.host.Keys
    ensures e.Renew? ==> RevisionStep(H, w, e).host.Keys <= w.host.Keys + {e.id}
    ensures RevisionStep(H, w, e).crashed ==> w.crashed || (e.Renew? && e.delivered >= 3 && w.detached.Some?)
  {
    match e
    case SectorRoots(offset, count, price, delivered) =>
      if Affords(w.held.value, price, w.base) {
        var p := Proposal(w.held.value, price);
        ChargeTable(w, p, HostHasRoots(Locked(w), offset, count, ValuesOf(p)), true, delivered);
      }
    case Read(sections, price, delivered) =>
      if Affords(w.held.value, price, w.base) {
        var p := Proposal(w.held.value, price);
        ChargeTable(w, p, HostReads(Locked(w), sections, ValuesOf(p)), HostHasSectors(Locked(w), sections), delivered);
      }
    case Write(actions, price, collateral, delivered) => WriteTable(H, w, actions, price, collateral, delivered);
    case _ =>
  }

  lemma StepGone(H: HashFn, w: World, e: Event)
    requires Inv(H, w) && Possible(w, e)
    ensures StaysGone(w, Step(H, w, e))
  {
    if Ready(w) {
      RevisionTable(H, w, e);
    }
  }

  lemma {:induction false} RunGone(H: HashFn, w: World, events: seq<Event>)
    requires Inv(H, w) && Possibles(H, w, events)
    ensures StaysGone(w, Run(H, w, events))
    decreases |events|
  {
    if |events| > 0 {
      StepKeeps(H, w, events[0]);
      StepGone(H, w, events[0]);
      RunGone(H, Step(H, w, events[0]), events[1..]);
    }
  }

  lemma AdvancesTwice(a: World, b: World, c: World, base: Currency)
    requires Advances(a, b, base) && Advances(b, c, 0) && StaysGone(b, c)
    requires forall id :: id in a.host ==> id in a.totals
    ensures Advances(a, c, 0)
  {
    forall id | id in a.host && id in c.host ensures Later(a.host[id].rev, c.host[id].rev, 0) {
      assert id in b.host;
      assert Later(a.host[id].rev, b.host[id].rev, base) && Later(b.host[id].rev, c.host[id].rev, 0);
    }
  }

  /** Every state of every run from the start. */
  lemma Reachable(H: HashFn, base: Currency, events: seq<Event>)
    requires Possibles(H, Start(base), events)
    ensures Inv(H, Run(H, Start(base), events))
  {
    RunKeeps(H, Start(base), events);
  }

  // ---------- nothing fails without a reason ----------

  /** A contract in the table can be locked, and brings the renter up to the host's revision. */
  lemma LockCompletes(H: HashFn, w: World, id: ContractId, delivered: nat)
    requires Inv(H, w) && !w.crashed && id in w.host && !(w.open && w.locked.Some?) && delivered >= 2
    ensures var w' := Step(H, w, Event.Lock(id, delivered)); Ready(w') && w'.held == Some(w.host[id].rev)
  {
    assert Sound(H, w.host[id], id, w.totals[id]);
  }

  /** An RPC that has revised the contract once more, for the price and the collateral: both sides have the
      new revision, if it has not been renewed in this session. */
  ghost predicate Completed(w: World, w': World, price: Currency, collateral: Currency)
    requires Ready(w)
  {
    && Ready(w') && Paid(w.held.value, w'.held.value, price, collateral) && w'.detached.None? == w.detached.None?
    && (w.detached.None? ==> HostHas(w', w'.held.value))
  }

  /** The host accepts every SectorRoots the renter sends in a request that it can read. */
  lemma SectorRootsCompletes(H: HashFn, w: World, offset: nat, count: nat, price: Currency, delivered: nat)
    requires Inv(H, w) && Ready(w) && Affords(w.held.value, price, w.base)
    requires 0 < count && offset + count <= NumSectors(w.held.value) && delivered >= 2
    requires var p := Proposal(w.held.value, price); Readable(RootsRequestSize(p.valid, p.missed), 4096)
    ensures Completed(w, SectorRootsStep(w, offset, count, price, delivered), price, 0)
  {
    OpenIsReady(H, w);
    ChargeKeeps(H, w, price, true, true, delivered);
    OpenIsReady(H, SectorRootsStep(w, offset, count, price, delivered));
  }

  /** The host serves every Read of its own sectors, in a request that it can read, unless the
      contract is the final one of a renewal. */
  lemma ReadCompletes(H: HashFn, w: World, sections: seq<Section>, price: Currency, delivered: nat)
    requires Inv(H, w) && Ready(w) && Affords(w.held.value, price, w.base) && |sections| > 0 && delivered >= 2
    requires forall i :: 0 <= i < |sections| ==> SectionOk(sections[i]) && sections[i].root in Locked(w).roots
    requires var p := Proposal(w.held.value, price); Readable(ReadRequestSize(|sections|, p.valid, p.missed), 4096)
    requires w.detached.Some? ==> !Cleared(H, Locked(w), w.held.value)
    ensures Completed(w, ReadStep(w, sections, price, delivered), price, 0)
  {
    OpenIsReady(H, w);
    var c := Locked(w);
    assert c.rev.number != MAX_REVISION;
    forall i | 0 <= i < |sections| ensures sections[i].root in c.data {
      assert DataSoundIf(true, H, c.roots, c.data) && sections[i].root in c.roots;
    }
    ChargeKeeps(H, w, price, true, true, delivered);
    OpenIsReady(H, ReadStep(w, sections, price, delivered));
  }

  /** Storing a contract touches the roots of no other. */
  lemma PutRoots(w: World, c: HostContract)
    requires Ready(w)
    ensures var w' := Put(w, c);
      && w'.host.Keys == w.host.Keys && HasCurrent(w'.host, w'.locked, w'.detached) && Locked(w') == c
      && (forall k :: k in w.host && (w.detached.Some? || w.locked != Some(k)) ==> w'.host[k].roots == w.host[k].roots)
      && (w.detached.None? ==> w'.host[w.locked.value] == c)
  {
  }

  /** The two ends of a Write that the renter sends. */
  lemma WriteEnds(H: HashFn, w: World, actions: seq<Action>, price: Currency, collateral: Currency, delivered: nat)
    requires Inv(H, w) && Ready(w) && Affords(w.held.value, price, w.base) && |actions| > 0
    ensures var w', c := WriteStep(H, w, actions, price, collateral, delivered), Locked(w);
      if delivered < 3 || !WriteProved(actions, |c.roots|, ValuesOf(WritePayment(w.held.value, price, collateral)))
      then w' == Cut(w, None)
      else
        var p := WriteProposal(H, w.held.value, actions, price, collateral, c.roots);
        var put := Put(w, Written(H, c, actions, ValuesOf(p), p));
        && w' == (if delivered == 3 then Cut(put, Some(p)) else put.(held := Some(p)))
        && p.number == w.held.value.number + 1 && Inv(H, w')
  {
    WriteKeeps(H, w, actions, price, collateral, delivered);
  }

  /** What a Write makes of the host's sectors: the locked contract has its old roots, or, and surely
      once the renter has moved on, those after the actions; other contracts keep theirs.  It adds at
      most four sectors and removes at most 125. */
  lemma WriteSectors(H: HashFn, w: World, actions: seq<Action>, price: Currency, collateral: Currency, delivered: nat)
    requires Inv(H, w) && Ready(w)
    ensures var w' := WriteStep(H, w, actions, price, collateral, delivered);
      && w'.host.Keys == w.host.Keys && w'.held.Some?
      && (forall k :: k in w.host && (w.detached.Some? || w.locked != Some(k)) ==> w'.host[k].roots == w.host[k].roots)
      && (w.detached.None? ==> RootsAfter(H, actions, w.host[w.locked.value].roots, w'.host[w.locked.value].roots, true))
      && (w'.held.value.number > w.held.value.number ==>
            HasCurrent(w'.host, w'.locked, w'.detached) && RootsAfter(H, actions, Locked(w).roots, Locked(w').roots, false))
  {
    var rev, c := w.held.value, Locked(w);
    if |actions| > 0 && Affords(rev, price, w.base) {
      WriteEnds(H, w, actions, price, collateral, delivered);
      if delivered >= 3 && WriteProved(actions, |c.roots|, ValuesOf(WritePayment(rev, price, collateral))) {
        var p := WriteProposal(H, rev, actions, price, collateral, c.roots);
        WriteBounds(actions, |c.roots|, ValuesOf(WritePayment(rev, price, collateral)));
        PutRoots(w, Written(H, c, actions, ValuesOf(p), p));
      }
    }
  }

  /** The roots after the actions, at most four more or 125 fewer; or, if it may be so, the old ones. */
  ghost predicate RootsAfter(H: HashFn, actions: seq<Action>, before: seq<Hash>, after: seq<Hash>, old_: bool) {
    || (old_ && after == before)
    || (ValidActions(actions, |before|) && after == ApplyAll(H, actions, before) && |before| - 125 <= |after| <= |before| + 4)
  }

  /** What the limits of the messages let a Write do. */
  lemma WriteBounds(actions: seq<Action>, n: nat, v: NewValues)
    requires WriteProved(actions, n, v)
    ensures n - 125 <= FinalSize(actions, n) <= n + 4
  {
    FewAppends(actions, n, v.valid, v.missed);
    FinalAtMost(actions, n);
    RemovedHashes(actions, n);
    HashLimits(ProofHashes(actions, n), 0, 0);
  }

  /** What WriteProved comes to for a contract that the renter can check. */
  lemma WriteLimits(actions: seq<Action>, n: nat, v: NewValues)
    requires n < LIMIT
    ensures WriteProved(actions, n, v) <==>
      && Readable(WriteRequestSize(actions, v.valid, v.missed), 5 * SECTOR_SIZE) && ValidActions(actions, n)
      && ProofHashes(actions, n) <= 125 && FinalSize(actions, n) < LIMIT
  {
    if ValidActions(actions, n) {
      HashLimits(ProofHashes(actions, n), 0, 0);
    }
  }

  lemma WriteDone(H: HashFn, w: World, actions: seq<Action>, price: Currency, collateral: Currency, delivered: nat)
    requires Inv(H, w) && Ready(w) && Affords(w.held.value, price, w.base) && |actions| > 0 && delivered >= 4
    requires WriteProved(actions, |Locked(w).roots|, ValuesOf(WritePayment(w.held.value, price, collateral)))
    ensures var w' := WriteStep(H, w, actions, price, collateral, delivered);
      var taken := if collateral < w.held.value.missed[1] then collateral else w.held.value.missed[1];
      Completed(w, w', price, taken) && Locked(w').roots == ApplyAll(H, actions, Locked(w).roots)
  {
    WriteEnds(H, w, actions, price, collateral, delivered);
    var c := Locked(w);
    var p := WriteProposal(H, w.held.value, actions, price, collateral, c.roots);
    PutRoots(w, Written(H, c, actions, ValuesOf(p), p));
    OpenIsReady(H, WriteStep(H, w, actions, price, collateral, delivered));
  }

  /** A Write completes exactly when it is valid, its request has fewer than five sectors and a few
      bytes, its proof no more than 125 hashes, and the renter can check it. */
  lemma WriteCompletes(H: HashFn, w: World, actions: seq<Action>, price: Currency, collateral: Currency, delivered: nat)
    requires Inv(H, w) && Ready(w) && Affords(w.held.value, price, w.base) && |actions| > 0 && delivered >= 4
    ensures var w' := WriteStep(H, w, actions, price, collateral, delivered);
      var n, v := NumSectors(w.held.value), ValuesOf(WritePayment(w.held.value, price, collateral));
      if Readable(WriteRequestSize(actions, v.valid, v.missed), 5 * SECTOR_SIZE) && ValidActions(actions, n)
         && ProofHashes(actions, n) <= 125 && FinalSize(actions, n) < LIMIT
      then
        var taken := if collateral < w.held.value.missed[1] then collateral else w.held.value.missed[1];
        Completed(w, w', price, taken) && |Locked(w).roots| == n && Locked(w').roots == ApplyAll(H, actions, Locked(w).roots)
      else w' == Cut(w, None)
  {
    OpenIsReady(H, w);
    var n, v := NumSectors(w.held.value), ValuesOf(WritePayment(w.held.value, price, collateral));
    assert |Locked(w).roots| == n < LIMIT;
    WriteLimits(actions, n, v);
    if WriteProved(actions, n, v) {
      WriteDone(H, w, actions, price, collateral, delivered);
    }
  }

  /** Two sessions on one contract: the host locks for each session alone.  When one has paid for
      roots, the other's revision is neither the host's nor one it has proposed, in the open session
      as after it breaks; and if it pays a different price in its turn the host replaces the
      revision by another with the same number. */
  lemma TwoSessionsDisagree(H: HashFn, w: World, id: ContractId, price: Currency, other: Currency, offset: nat, count: nat)
    requires Inv(H, w) && !w.crashed && !w.open && id in w.host && Balanced(w.host[id].rev) && price != other
    requires Affords(w.host[id].rev, price, w.base) && Affords(w.host[id].rev, other, w.base)
    requires 0 < count && offset + count <= |w.host[id].roots|
    requires var p, q := Proposal(w.host[id].rev, price), Proposal(w.host[id].rev, other);
      Readable(RootsRequestSize(p.valid, p.missed), 4096) && Readable(RootsRequestSize(q.valid, q.missed), 4096)
    ensures var a, b := LockStep(w, id, 2), LockStep(w, id, 2);
      && Ready(a) && Ready(b)
      && var a' := SectorRootsStep(a, offset, count, price, 2);
        var b' := b.(host := a'.host);
        && Agreed(H, a') && !Agreed(H, b') && !Agreed(H, Cut(b', b'.proposed)) && Ready(b')
        && var b'' := SectorRootsStep(b', offset, count, other, 2);
          id in b''.host && b''.host[id].rev.number == a'.host[id].rev.number && b''.host[id].rev != a'.host[id].rev
  {
    var c := w.host[id];
    assert Sound(H, c, id, w.totals[id]);
    var p, q := Proposal(c.rev, price), Proposal(c.rev, other);
    assert q.valid[0] != p.valid[0];
    var a := LockStep(w, id, 2);
    assert Inv(H, a);
    SectorRootsKeeps(H, a, offset, count, price, 2);
    var a' := SectorRootsStep(a, offset, count, price, 2);
    assert a' == a.(host := a.host[id := Charge(c, ValuesOf(p), p)], held := Some(p));
  }
}
