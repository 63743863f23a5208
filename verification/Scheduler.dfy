/** The parallel shard download of fileReadAt (renter/renterutil/fileops.go) with the host locks it
    uses (renter/renterutil/hostset.go), as a step system: a main loop, as many workers as shards
    are needed, and other users of the hosts.  Shard i is on host i; the hosts are distinct. */
module Scheduler {

  /** block: wait for the host's lock. */
  datatype Req = Req(shard: nat, block: bool)

  datatype Result = Good | Acquired | Failed

  datatype Resp = Resp(req: Req, result: Result)

  /** A request a worker is busy with, and whether it holds the host's lock. */
  datatype Work = Work(req: Req, holding: bool)

  /** The one token of a tryLock: in the channel, with a worker, or with someone else. */
  datatype Owner = Free | Worker | Other

  /** Both channels have capacity need, which is also the number of workers; known are the shards
      whose hosts are in the set, and filled those whose buffers a worker has filled. */
  datatype State = State(need: nat, known: set<nat>, queue: seq<Req>, reqs: seq<Req>, busy: seq<Work>, resps: seq<Resp>,
                         good: seq<nat>, failed: seq<nat>, locks: seq<Owner>, filled: set<nat>)

  datatype Act =
    | Take                      // a worker takes the next request
    | Acquire(k: nat)           // tryAcquire or acquire gets the lock
    | Refuse(k: nat)            // tryAcquire finds the host acquired
    | NoHost(k: nat)            // the set has no such host
    | Finish(k: nat, ok: bool)  // the lock is released after a download, or a failed reconnect or download
    | Receive                   // the main loop takes a response
    | OtherLock(h: nat) | OtherUnlock(h: nat)

  // ---------- steps ----------

  function Outstanding(s: State): nat {
    |s.reqs| + |s.busy| + |s.resps|
  }

  /** The main loop goes on. */
  predicate Looping(s: State) {
    |s.good| < s.need && |s.good| + |s.failed| < |s.locks|
  }

  function Remove<T>(s: seq<T>, k: nat): seq<T>
    requires k < |s|
  {
    s[..k] + s[k + 1..]
  }

  /** A worker is about to acquire its host. */
  predicate Tries(s: State, k: nat) {
    k < |s.busy| && !s.busy[k].holding && s.busy[k].req.shard < |s.locks|
  }

  predicate Enabled(s: State, a: Act) {
    match a
    case Take => |s.reqs| > 0 && |s.busy| < s.need
    case Acquire(k) => Tries(s, k) && s.busy[k].req.shard in s.known && s.locks[s.busy[k].req.shard] == Free
    case Refuse(k) => Tries(s, k) && s.busy[k].req.shard in s.known && s.locks[s.busy[k].req.shard] != Free && !s.busy[k].req.block
    case NoHost(k) => Tries(s, k) && s.busy[k].req.shard !in s.known
    case Finish(k, _) => k < |s.busy| && s.busy[k].holding && s.busy[k].req.shard < |s.locks|
    case Receive => Looping(s) && |s.resps| > 0
    case OtherLock(h) => h < |s.locks| && s.locks[h] == Free
    case OtherUnlock(h) => h < |s.locks| && s.locks[h] == Other
  }

  /** A worker sends its response. */
  function Respond(s: State, k: nat, result: Result): State
    requires k < |s.busy|
  {
    s.(busy := Remove(s.busy, k), resps := s.resps + [Resp(s.busy[k].req, result)])
  }

  /** A worker gives the lock back; after a download that has not failed the shard's buffer is full. */
  function Released(s: State, k: nat, ok: bool): State
    requires k < |s.busy| && s.busy[k].req.shard < |s.locks|
  {
    var x := s.busy[k].req.shard;
    s.(locks := s.locks[x := Free], filled := if ok then s.filled + {x} else s.filled)
  }

  /** The main loop sends the next queued request, if any. */
  function SendNext(s: State): State {
    if |s.queue| == 0 then s else s.(reqs := s.reqs + [s.queue[0]], queue := s.queue[1..])
  }

  function Handle(s: State, r: Resp): State {
    match r.result
    case Good => s.(good := s.good + [r.req.shard])
    case Acquired => SendNext(s.(queue := s.queue + [Req(r.req.shard, true)]))
    case Failed => SendNext(s.(failed := s.failed + [r.req.shard]))
  }

  function Step(s: State, a: Act): State
    requires Enabled(s, a)
  {
    match a
    case Take => s.(reqs := s.reqs[1..], busy := s.busy + [Work(s.reqs[0], false)])
    case Acquire(k) => s.(busy := s.busy[k := Work(s.busy[k].req, true)], locks := s.locks[s.busy[k].req.shard := Worker])
    case Refuse(k) => Respond(s, k, Acquired)
    case NoHost(k) => Respond(s, k, Failed)
    case Finish(k, ok) => Respond(Released(s, k, ok), k, if ok then Good else Failed)
    case Receive => Handle(s.(resps := s.resps[1..]), s.resps[0])
    case OtherLock(h) => s.(locks := s.locks[h := Other])
    case OtherUnlock(h) => s.(locks := s.locks[h := Free])
  }

  /** The queue in random order; a worker and a request for each of the first need. */
  function Start(order: seq<nat>, need: nat, known: set<nat>): State
    requires need <= |order|
  {
    var all := seq(|order|, i requires 0 <= i < |order| => Req(order[i], false));
    State(need, known, all[need..], all[..need], [], [], [], [], seq(|order|, _ => Free), {})
  }

  // ---------- every shard is in one place ----------

  function One(b: bool): nat {
    if b then 1 else 0
  }

  /** How often shard x is among the requests. */
  function InReqs(q: seq<Req>, x: nat): nat {
    if |q| == 0 then 0 else One(q[0].shard == x) + InReqs(q[1..], x)
  }

  function InWork(b: seq<Work>, x: nat): nat {
    if |b| == 0 then 0 else One(b[0].req.shard == x) + InWork(b[1..], x)
  }

  function InResps(r: seq<Resp>, x: nat): nat {
    if |r| == 0 then 0 else One(r[0].req.shard == x) + InResps(r[1..], x)
  }

  function InShards(s: seq<nat>, x: nat): nat {
    if |s| == 0 then 0 else One(s[0] == x) + InShards(s[1..], x)
  }

  /** In how many places shard x is: queued, outstanding, good or failed. */
  function Places(s: State, x: nat): nat {
    InReqs(s.queue, x) + (InReqs(s.reqs, x) + InWork(s.busy, x) + InResps(s.resps, x)) + InShards(s.good, x) + InShards(s.failed, x)
  }

  lemma {:induction false} InReqsConcat(a: seq<Req>, b: seq<Req>, x: nat)
    ensures InReqs(a + b, x) == InReqs(a, x) + InReqs(b, x)
    decreases |a|
  {
    if |a| == 0 {
      assert a + b == b;
    } else {
      assert (a + b)[1..] == a[1..] + b;
      InReqsConcat(a[1..], b, x);
    }
  }

  lemma {:induction false} InWorkConcat(a: seq<Work>, b: seq<Work>, x: nat)
    ensures InWork(a + b, x) == InWork(a, x) + InWork(b, x)
    decreases |a|
  {
    if |a| == 0 {
      assert a + b == b;
    } else {
      assert (a + b)[1..] == a[1..] + b;
      InWorkConcat(a[1..], b, x);
    }
  }

  lemma {:induction false} InRespsSnoc(a: seq<Resp>, r: Resp, x: nat)
    ensures InResps(a + [r], x) == InResps(a, x) + One(r.req.shard == x)
    decreases |a|
  {
    if |a| > 0 {
      assert (a + [r])[1..] == a[1..] + [r];
      InRespsSnoc(a[1..], r, x);
    }
  }

  lemma {:induction false} InShardsSnoc(a: seq<nat>, i: nat, x: nat)
    ensures InShards(a + [i], x) == InShards(a, x) + One(i == x)
    decreases |a|
  {
    if |a| > 0 {
      assert (a + [i])[1..] == a[1..] + [i];
      InShardsSnoc(a[1..], i, x);
    }
  }

  lemma InWorkSplit(b: seq<Work>, k: nat, x: nat)
    requires k < |b|
    ensures InWork(b, x) == InWork(Remove(b, k), x) + One(b[k].req.shard == x)
  {
    var t := [b[k]] + b[k + 1..];
    assert b == b[..k] + t && t[1..] == b[k + 1..];
    InWorkConcat(b[..k], t, x);
    InWorkConcat(b[..k], b[k + 1..], x);
  }

  lemma {:induction false} InWorkUpdate(b: seq<Work>, k: nat, w: Work, x: nat)
    requires k < |b| && w.req == b[k].req
    ensures InWork(b[k := w], x) == InWork(b, x)
    decreases |b|
  {
    if k > 0 {
      assert b[k := w][1..] == b[1..][k - 1 := w];
      InWorkUpdate(b[1..], k - 1, w, x);
    } else {
      assert b[k := w][1..] == b[1..];
    }
  }

  lemma SendNextKeeps(s: State, x: nat)
    ensures Places(SendNext(s), x) == Places(s, x)
  {
    if |s.queue| > 0 {
      InReqsConcat(s.reqs, [s.queue[0]], x);
    }
  }

  lemma HandleMoves(s: State, r: Resp, x: nat)
    ensures Places(Handle(s, r), x) == Places(s, x) + One(r.req.shard == x)
  {
    match r.result
    case Good => InShardsSnoc(s.good, r.req.shard, x);
    case Acquired =>
      InReqsConcat(s.queue, [Req(r.req.shard, true)], x);
      SendNextKeeps(s.(queue := s.queue + [Req(r.req.shard, true)]), x);
    case Failed =>
      InShardsSnoc(s.failed, r.req.shard, x);
      SendNextKeeps(s.(failed := s.failed + [r.req.shard]), x);
  }

  lemma RespondMoves(s: State, k: nat, result: Result, x: nat)
    requires k < |s.busy|
    ensures Places(Respond(s, k, result), x) == Places(s, x)
  {
    InWorkSplit(s.busy, k, x);
    InRespsSnoc(s.resps, Resp(s.busy[k].req, result), x);
  }

  lemma StepMoves(s: State, a: Act, x: nat)
    requires Enabled(s, a)
    ensures Places(Step(s, a), x) == Places(s, x)
  {
    match a
    case Take => InWorkConcat(s.busy, [Work(s.reqs[0], false)], x);
    case Acquire(k) => InWorkUpdate(s.busy, k, Work(s.busy[k].req, true), x);
    case Refuse(k) => RespondMoves(s, k, Acquired, x);
    case NoHost(k) => RespondMoves(s, k, Failed, x);
    case Finish(k, ok) => RespondMoves(Released(s, k, ok), k, if ok then Good else Failed, x);
    case Receive => HandleMoves(s.(resps := s.resps[1..]), s.resps[0], x);
    case OtherLock(_) =>
    case OtherUnlock(_) =>
  }

  // ---------- what every step keeps ----------

  /** Every shard is in exactly one place. */
  ghost predicate Partitioned(s: State) {
    forall x :: Placed(s, x)
  }

  ghost predicate Placed(s: State, x: nat) {
    Places(s, x) == if x < |s.locks| then 1 else 0
  }

  /** The shards add up. */
  predicate Counted(s: State) {
    |s.queue| + Outstanding(s) + |s.good| + |s.failed| == |s.locks|
  }

  /** While requests are queued, as many shards are outstanding or good as are needed. */
  predicate Supplied(s: State) {
    && Outstanding(s) + |s.good| <= s.need
    && (|s.queue| > 0 ==> Outstanding(s) + |s.good| == s.need)
  }

  /** A request that waits for the lock never comes back for want of it, and a shard that
      is not queued for the first time has been tried once. */
  predicate RefusedOnce(s: State) {
    forall i :: 0 <= i < |s.resps| && s.resps[i].result == Acquired ==> !s.resps[i].req.block
  }

  /** A worker has the token exactly when it says so. */
  ghost predicate LocksKept(s: State) {
    && (forall k :: 0 <= k < |s.busy| && s.busy[k].holding ==> s.busy[k].req.shard < |s.locks| && s.locks[s.busy[k].req.shard] == Worker)
    && (forall h :: 0 <= h < |s.locks| && s.locks[h] == Worker ==>
          exists k :: 0 <= k < |s.busy| && s.busy[k] == Work(s.busy[k].req, true) && s.busy[k].req.shard == h)
  }

  /** A request that waits for its host is behind all those that do not, and is sent when none of them is
      left: every host is tried once before the download waits for one. */
  predicate TriedFirst(s: State) {
    && (forall i, j :: 0 <= i < j < |s.queue| && s.queue[i].block ==> s.queue[j].block)
    && (forall i, j :: 0 <= i < |s.reqs| && 0 <= j < |s.queue| && s.reqs[i].block ==> s.queue[j].block)
    && (forall i, j :: 0 <= i < |s.busy| && 0 <= j < |s.queue| && s.busy[i].req.block ==> s.queue[j].block)
  }

  lemma StepTriesFirst(s: State, a: Act)
    requires TriedFirst(s) && Enabled(s, a)
    ensures TriedFirst(Step(s, a))
  {
    var t := Step(s, a);
    if a.Refuse? || a.NoHost? || a.Finish? {
      forall i, j | 0 <= i < |t.busy| && 0 <= j < |t.queue| && t.busy[i].req.block ensures t.queue[j].block {
        assert t.busy[i] == s.busy[if i < a.k then i else i + 1];
      }
    } else if a.Receive? {
      HandleTriesFirst(s.(resps := s.resps[1..]), s.resps[0]);
    }
  }

  lemma HandleTriesFirst(s: State, r: Resp)
    requires TriedFirst(s)
    ensures TriedFirst(Handle(s, r))
  {
    match r.result
    case Good =>
    case Acquired => SendTriesFirst(s.(queue := s.queue + [Req(r.req.shard, true)]));
    case Failed => SendTriesFirst(s.(failed := s.failed + [r.req.shard]));
  }

  lemma SendTriesFirst(s: State)
    requires TriedFirst(s)
    ensures TriedFirst(SendNext(s))
  {
  }

  /** Only hosts of the set are acquired, and only shards of acquired hosts are filled. */
  predicate HoldersKnown(s: State) {
    (forall k :: 0 <= k < |s.busy| && s.busy[k].holding ==> s.busy[k].req.shard in s.known) && s.filled <= s.known
  }

  /** The shard has been answered for as good, or as failed. */
  ghost predicate Got(s: State, x: nat) {
    x in s.good || exists r :: r in s.resps && r.result == Good && r.req.shard == x
  }

  ghost predicate Lost(s: State, x: nat) {
    x in s.failed || exists r :: r in s.resps && r.result == Failed && r.req.shard == x
  }

  /** The step downloads shard x, or gives it up: its host is not in the set, cannot be reconnected to or
      does not serve it. */
  predicate Downloads(s: State, a: Act, x: nat)
    requires Enabled(s, a)
  {
    a.Finish? && a.ok && s.busy[a.k].req.shard == x
  }

  predicate GivesUp(s: State, a: Act, x: nat)
    requires Enabled(s, a)
  {
    ((a.Finish? && !a.ok) || a.NoHost?) && s.busy[a.k].req.shard == x
  }

  /** A shard is answered for as good exactly when its buffer is full. */
  ghost predicate Answered(s: State) {
    forall x :: Got(s, x) <==> x in s.filled
  }

  ghost predicate Inv(s: State) {
    Partitioned(s) && Counted(s) && Supplied(s) && RefusedOnce(s) && LocksKept(s) && TriedFirst(s) && HoldersKnown(s) && Answered(s)
  }

  lemma RespondAnswers(s: State, k: nat, result: Result, x: nat)
    requires k < |s.busy|
    ensures var t := Respond(s, k, result);
      && (Got(t, x) <==> Got(s, x) || (result == Good && s.busy[k].req.shard == x))
      && (Lost(t, x) <==> Lost(s, x) || (result == Failed && s.busy[k].req.shard == x))
  {
    var t, r := Respond(s, k, result), Resp(s.busy[k].req, result);
    assert forall q :: q in t.resps <==> q in s.resps || q == r;
  }

  lemma HandleAnswers(s: State, x: nat)
    requires |s.resps| > 0
    ensures var t := Handle(s.(resps := s.resps[1..]), s.resps[0]); (Got(t, x) <==> Got(s, x)) && (Lost(t, x) <==> Lost(s, x))
  {
    var t, r := Handle(s.(resps := s.resps[1..]), s.resps[0]), s.resps[0];
    assert s.resps == [r] + s.resps[1..];
    assert t.resps == s.resps[1..] && forall q :: q in s.resps <==> q == r || q in t.resps;
  }

  /** A shard becomes good by being downloaded, and failed by being given up. */
  lemma StepAnswers(s: State, a: Act, x: nat)
    requires Enabled(s, a)
    ensures Got(Step(s, a), x) <==> Got(s, x) || Downloads(s, a, x)
    ensures Lost(Step(s, a), x) <==> Lost(s, x) || GivesUp(s, a, x)
    ensures x in Step(s, a).filled <==> x in s.filled || Downloads(s, a, x)
  {
    match a
    case Refuse(k) => RespondAnswers(s, k, Acquired, x);
    case NoHost(k) => RespondAnswers(s, k, Failed, x);
    case Finish(k, ok) => RespondAnswers(Released(s, k, ok), k, if ok then Good else Failed, x);
    case Receive => HandleAnswers(s, x);
    case _ =>
  }


  lemma {:induction false} InWorkAt(b: seq<Work>, k: nat)
    requires k < |b|
    ensures InWork(b, b[k].req.shard) > 0
  {
    if k > 0 {
      InWorkAt(b[1..], k - 1);
    }
  }

  /** Two workers never have the same shard. */
  lemma WorkersApart(s: State, k: nat, j: nat)
    requires Partitioned(s) && k < |s.busy| && j < |s.busy| && k != j
    ensures s.busy[k].req.shard != s.busy[j].req.shard
  {
    var h := s.busy[j].req.shard;
    InWorkSplit(s.busy, k, h);
    var i := if j < k then j else j - 1;
    assert Remove(s.busy, k)[i] == s.busy[j];
    InWorkAt(Remove(s.busy, k), i);
    assert Placed(s, h);
  }

  lemma ShardBelow(s: State, k: nat)
    requires Partitioned(s) && k < |s.busy|
    ensures s.busy[k].req.shard < |s.locks|
  {
    InWorkAt(s.busy, k);
    assert Placed(s, s.busy[k].req.shard);
  }

  lemma RespondKeepsLocks(s: State, k: nat, result: Result)
    requires Partitioned(s) && LocksKept(s) && k < |s.busy|
    ensures var h := s.busy[k].req.shard;
      h < |s.locks| && LocksKept(Respond(if s.busy[k].holding then s.(locks := s.locks[h := Free]) else s, k, result))
  {
    ShardBelow(s, k);
    var h := s.busy[k].req.shard;
    var t := Respond(if s.busy[k].holding then s.(locks := s.locks[h := Free]) else s, k, result);
    forall j | 0 <= j < |t.busy| && t.busy[j].holding ensures t.busy[j].req.shard < |t.locks| && t.locks[t.busy[j].req.shard] == Worker {
      var i := if j < k then j else j + 1;
      assert t.busy[j] == s.busy[i];
      WorkersApart(s, k, i);
    }
    forall g | 0 <= g < |t.locks| && t.locks[g] == Worker
      ensures exists j :: 0 <= j < |t.busy| && t.busy[j] == Work(t.busy[j].req, true) && t.busy[j].req.shard == g
    {
      assert s.locks[g] == Worker;
      var i :| 0 <= i < |s.busy| && s.busy[i] == Work(s.busy[i].req, true) && s.busy[i].req.shard == g;
      assert i != k;
      var j := if i < k then i else i - 1;
      assert t.busy[j] == s.busy[i];
    }
  }

  lemma FilledKeepsLocks(s: State, k: nat, ok: bool)
    requires k < |s.busy| && s.busy[k].req.shard < |s.locks|
    requires LocksKept(Respond(s.(locks := s.locks[s.busy[k].req.shard := Free]), k, if ok then Good else Failed))
    ensures LocksKept(Respond(Released(s, k, ok), k, if ok then Good else Failed))
  {
    var a := Respond(s.(locks := s.locks[s.busy[k].req.shard := Free]), k, if ok then Good else Failed);
    var b := Respond(Released(s, k, ok), k, if ok then Good else Failed);
    assert a.busy == b.busy && a.locks == b.locks;
  }

  lemma AcquireKeepsLocks(s: State, k: nat)
    requires Partitioned(s) && LocksKept(s) && Enabled(s, Act.Acquire(k))
    ensures LocksKept(Step(s, Act.Acquire(k)))
  {
    var t, h := Step(s, Act.Acquire(k)), s.busy[k].req.shard;
    forall j | 0 <= j < |t.busy| && t.busy[j].holding ensures t.busy[j].req.shard < |t.locks| && t.locks[t.busy[j].req.shard] == Worker {
      if j != k {
        WorkersApart(s, k, j);
        assert t.busy[j] == s.busy[j];
      }
    }
    forall g | 0 <= g < |t.locks| && t.locks[g] == Worker
      ensures exists j :: 0 <= j < |t.busy| && t.busy[j] == Work(t.busy[j].req, true) && t.busy[j].req.shard == g
    {
      if g == h {
        assert t.busy[k] == Work(t.busy[k].req, true);
      } else {
        var i :| 0 <= i < |s.busy| && s.busy[i] == Work(s.busy[i].req, true) && s.busy[i].req.shard == g;
        assert t.busy[i] == s.busy[i];
      }
    }
  }

  lemma TakeKeepsLocks(s: State)
    requires LocksKept(s) && Enabled(s, Take)
    ensures LocksKept(Step(s, Take))
  {
    var t := Step(s, Take);
    forall g | 0 <= g < |t.locks| && t.locks[g] == Worker
      ensures exists j :: 0 <= j < |t.busy| && t.busy[j] == Work(t.busy[j].req, true) && t.busy[j].req.shard == g
    {
      var i :| 0 <= i < |s.busy| && s.busy[i] == Work(s.busy[i].req, true) && s.busy[i].req.shard == g;
      assert t.busy[i] == s.busy[i];
    }
  }

  lemma OtherKeepsLocks(s: State, t: State, h: nat, owner: Owner)
    requires LocksKept(s) && h < |s.locks| && s.locks[h] != Worker && owner != Worker && t == s.(locks := s.locks[h := owner])
    ensures LocksKept(t)
  {
    forall g | 0 <= g < |t.locks| && t.locks[g] == Worker
      ensures exists j :: 0 <= j < |t.busy| && t.busy[j] == Work(t.busy[j].req, true) && t.busy[j].req.shard == g
    {
      assert s.locks[g] == Worker;
    }
  }

  lemma StepKeepsLocks(s: State, a: Act)
    requires Partitioned(s) && LocksKept(s) && Enabled(s, a)
    ensures LocksKept(Step(s, a))
  {
    match a
    case Take => TakeKeepsLocks(s);
    case Acquire(k) => AcquireKeepsLocks(s, k);
    case Refuse(k) => RespondKeepsLocks(s, k, Acquired);
    case NoHost(k) => RespondKeepsLocks(s, k, Failed);
    case Finish(k, ok) =>
      RespondKeepsLocks(s, k, if ok then Good else Failed);
      FilledKeepsLocks(s, k, ok);
    case Receive =>
      var t := Step(s, Receive);
      assert t.busy == s.busy && t.locks == s.locks;
    case OtherLock(h) => OtherKeepsLocks(s, Step(s, a), h, Other);
    case OtherUnlock(h) => OtherKeepsLocks(s, Step(s, a), h, Free);
  }

  /** Every step keeps the invariant. */
  lemma StepKeeps(s: State, a: Act)
    requires Inv(s) && Enabled(s, a)
    ensures Inv(Step(s, a))
  {
    var t := Step(s, a);
    forall x ensures Placed(t, x) {
      StepMoves(s, a, x);
      assert Placed(s, x) && |t.locks| == |s.locks|;
    }
    StepKeepsLocks(s, a);
    StepCounts(s, a);
    StepKnown(s, a);
    StepTriesFirst(s, a);
    forall x ensures Got(t, x) <==> x in t.filled {
      StepAnswers(s, a, x);
    }
  }

  lemma RespondKnown(s: State, k: nat, result: Result)
    requires HoldersKnown(s) && k < |s.busy|
    ensures HoldersKnown(Respond(s, k, result))
  {
    var t := Respond(s, k, result);
    forall j | 0 <= j < |t.busy| && t.busy[j].holding ensures t.busy[j].req.shard in t.known {
      assert t.busy[j] == s.busy[if j < k then j else j + 1];
    }
  }

  lemma StepKnown(s: State, a: Act)
    requires HoldersKnown(s) && Enabled(s, a)
    ensures HoldersKnown(Step(s, a))
  {
    match a
    case Refuse(k) => RespondKnown(s, k, Acquired);
    case NoHost(k) => RespondKnown(s, k, Failed);
    case Finish(k, ok) => RespondKnown(Released(s, k, ok), k, if ok then Good else Failed);
    case _ =>
  }

  lemma StepCounts(s: State, a: Act)
    requires Counted(s) && Supplied(s) && RefusedOnce(s) && Enabled(s, a)
    ensures Counted(Step(s, a)) && Supplied(Step(s, a)) && RefusedOnce(Step(s, a))
  {
  }

  /** No send ever blocks: a worker finds room for its response, the main loop for its request,
      and whoever releases a host finds the token's place empty. */
  lemma SendsFit(s: State, a: Act)
    requires Inv(s) && Enabled(s, a)
    ensures a.Refuse? || a.NoHost? || a.Finish? ==> |s.resps| < s.need
    ensures a.Receive? && |Step(s, a).reqs| > |s.reqs| ==> |s.reqs| < s.need
    ensures a.Finish? ==> s.locks[s.busy[a.k].req.shard] == Worker
    ensures |Step(s, a).reqs| <= s.need && |Step(s, a).resps| <= s.need
  {
    StepKeeps(s, a);
  }

  // ---------- progress ----------

  /** The loop never waits with nothing outstanding. */
  lemma NeverWaitsForNothing(s: State)
    requires Inv(s) && Looping(s)
    ensures Outstanding(s) > 0
  {
  }

  /** A step of the main loop or of a worker, not of another user of the hosts. */
  predicate IsOwn(a: Act) {
    !a.OtherLock? && !a.OtherUnlock?
  }

  /** Worker k waits for a host that someone else has. */
  predicate Waits(s: State, k: nat)
    requires k < |s.busy|
  {
    Tries(s, k) && s.busy[k].req.block && s.busy[k].req.shard in s.known && s.locks[s.busy[k].req.shard] == Other
  }

  /** Workers do not wait for each other in a circle: one that has a host can finish. */
  lemma HolderFinishes(s: State, h: nat) returns (k: nat)
    requires Inv(s) && h < |s.locks| && s.locks[h] == Worker
    ensures Enabled(s, Finish(k, true))
  {
    k :| k < |s.busy| && s.busy[k] == Work(s.busy[k].req, true) && s.busy[k].req.shard == h;
  }

  /** A worker with a request can go on, or some other worker can, unless it waits for someone
      outside. */
  lemma WorkerGoesOn(s: State, k: nat) returns (a: Act)
    requires Inv(s) && k < |s.busy| && !Waits(s, k)
    ensures Enabled(s, a) && IsOwn(a)
  {
    ShardBelow(s, k);
    var h := s.busy[k].req.shard;
    if s.busy[k].holding {
      a := Finish(k, true);
    } else if h !in s.known {
      a := NoHost(k);
    } else if s.locks[h] == Free {
      a := Acquire(k);
    } else if !s.busy[k].req.block {
      a := Refuse(k);
    } else {
      var j := HolderFinishes(s, h);
      a := Finish(j, true);
    }
  }

  /** As long as the loop goes on it or a worker can take a step, unless there is a worker with a
      request and every such worker waits for a host that someone else has. */
  lemma Progress(s: State)
    requires Inv(s) && Looping(s)
    ensures (exists a :: Enabled(s, a) && IsOwn(a)) || (|s.busy| > 0 && forall k :: 0 <= k < |s.busy| ==> Waits(s, k))
  {
    if |s.resps| > 0 {
      assert Enabled(s, Receive) && IsOwn(Receive);
    } else if |s.busy| == 0 {
      assert Enabled(s, Take) && IsOwn(Take);
    } else if k :| 0 <= k < |s.busy| && !Waits(s, k) {
      var a := WorkerGoesOn(s, k);
    }
  }

  /** When the loop ends it has the shards it needs and no worker is left to touch a buffer, or
      every host is accounted for; and the good shards are those with full buffers, of hosts in the set. */
  lemma LoopEnds(s: State)
    requires Inv(s) && !Looping(s)
    ensures Outstanding(s) == 0
    ensures |s.good| == s.need || (|s.good| < s.need && |s.good| + |s.failed| == |s.locks| && s.queue == [])
    ensures s.filled <= s.known && forall x :: x in s.good <==> x in s.filled
  {
    forall x ensures x in s.good <==> x in s.filled {
      assert Got(s, x) <==> x in s.filled;
    }
  }

  // ---------- termination ----------

  /** How many steps a shard has before it at most, by where it is. */
  function Steps(block: bool): nat {
    if block then 0 else 6
  }

  function QueueRank(q: seq<Req>): nat {
    if |q| == 0 then 0 else Steps(q[0].block) + 5 + QueueRank(q[1..])
  }

  function ReqRank(q: seq<Req>): nat {
    if |q| == 0 then 0 else Steps(q[0].block) + 4 + ReqRank(q[1..])
  }

  function BusyRank(b: seq<Work>): nat {
    if |b| == 0 then 0 else Steps(b[0].req.block) + (if b[0].holding then 2 else 3) + BusyRank(b[1..])
  }

  /** A refused request still has its second round before it; others are done. */
  function RespRank(r: seq<Resp>): nat {
    if |r| == 0 then 0 else (if r[0].result == Acquired then 6 else 1) + RespRank(r[1..])
  }

  function Rank(s: State): nat {
    QueueRank(s.queue) + ReqRank(s.reqs) + BusyRank(s.busy) + RespRank(s.resps)
  }

  lemma {:induction false} QueueRankSnoc(q: seq<Req>, r: Req)
    ensures QueueRank(q + [r]) == QueueRank(q) + Steps(r.block) + 5
  {
    if |q| > 0 {
      assert (q + [r])[1..] == q[1..] + [r];
      QueueRankSnoc(q[1..], r);
    }
  }

  lemma {:induction false} ReqRankSnoc(q: seq<Req>, r: Req)
    ensures ReqRank(q + [r]) == ReqRank(q) + Steps(r.block) + 4
  {
    if |q| > 0 {
      assert (q + [r])[1..] == q[1..] + [r];
      ReqRankSnoc(q[1..], r);
    }
  }

  lemma {:induction false} RespRankSnoc(q: seq<Resp>, r: Resp)
    ensures RespRank(q + [r]) == RespRank(q) + (if r.result == Acquired then 6 else 1)
  {
    if |q| > 0 {
      assert (q + [r])[1..] == q[1..] + [r];
      RespRankSnoc(q[1..], r);
    }
  }

  function WorkRank(w: Work): nat {
    Steps(w.req.block) + (if w.holding then 2 else 3)
  }

  lemma {:induction false} BusyRankAt(b: seq<Work>, k: nat, w: Work)
    requires k < |b|
    ensures BusyRank(Remove(b, k)) + WorkRank(b[k]) == BusyRank(b)
    ensures BusyRank(b[k := w]) + WorkRank(b[k]) == BusyRank(b) + WorkRank(w)
    decreases |b|
  {
    if k > 0 {
      assert Remove(b, k)[1..] == Remove(b[1..], k - 1) && b[k := w][1..] == b[1..][k - 1 := w];
      BusyRankAt(b[1..], k - 1, w);
    } else {
      assert Remove(b, k) == b[1..] && b[k := w][1..] == b[1..];
    }
  }

  lemma {:induction false} BusyRankSnoc(b: seq<Work>, w: Work)
    ensures BusyRank(b + [w]) == BusyRank(b) + WorkRank(w)
  {
    if |b| > 0 {
      assert (b + [w])[1..] == b[1..] + [w];
      BusyRankSnoc(b[1..], w);
    }
  }

  lemma SendNextRank(s: State)
    ensures Rank(SendNext(s)) <= Rank(s)
  {
    if |s.queue| > 0 {
      ReqRankSnoc(s.reqs, s.queue[0]);
    }
  }

  /** Every step of the main loop or a worker brings the end nearer. */
  lemma RankDrops(s: State, a: Act)
    requires Enabled(s, a) && IsOwn(a)
    ensures Rank(Step(s, a)) < Rank(s)
  {
    match a
    case Take => BusyRankSnoc(s.busy, Work(s.reqs[0], false));
    case Acquire(k) => BusyRankAt(s.busy, k, Work(s.busy[k].req, true));
    case Refuse(k) => RespondRank(s, k, Acquired);
    case NoHost(k) => RespondRank(s, k, Failed);
    case Finish(k, ok) => RespondRank(Released(s, k, ok), k, if ok then Good else Failed);
    case Receive =>
      var t, r := s.(resps := s.resps[1..]), s.resps[0];
      QueueRankSnoc(t.queue, Req(r.req.shard, true));
      SendNextRank(t.(queue := t.queue + [Req(r.req.shard, true)]));
      SendNextRank(t.(failed := t.failed + [r.req.shard]));
  }

  lemma RespondRank(s: State, k: nat, result: Result)
    requires k < |s.busy| && (result == Acquired ==> !s.busy[k].req.block && !s.busy[k].holding)
    ensures Rank(Respond(s, k, result)) < Rank(s)
  {
    BusyRankAt(s.busy, k, s.busy[k]);
    RespRankSnoc(s.resps, Resp(s.busy[k].req, result));
  }

  // ---------- runs ----------

  predicate Runs(s: State, acts: seq<Act>)
    decreases |acts|
  {
    |acts| == 0 || (Enabled(s, acts[0]) && Runs(Step(s, acts[0]), acts[1..]))
  }

  function Run(s: State, acts: seq<Act>): State
    requires Runs(s, acts)
    decreases |acts|
  {
    if |acts| == 0 then s else Run(Step(s, acts[0]), acts[1..])
  }

  /** The steps that the download itself takes. */
  function Own(acts: seq<Act>): nat {
    if |acts| == 0 then 0 else One(IsOwn(acts[0])) + Own(acts[1..])
  }

  lemma {:induction false} RunKeeps(s: State, acts: seq<Act>)
    requires Inv(s) && Runs(s, acts)
    ensures Inv(Run(s, acts)) && Own(acts) + Rank(Run(s, acts)) <= Rank(s)
    decreases |acts|
  {
    if |acts| > 0 {
      StepKeeps(s, acts[0]);
      RunKeeps(Step(s, acts[0]), acts[1..]);
      if IsOwn(acts[0]) {
        RankDrops(s, acts[0]);
      }
    }
  }

  /** What a run never changes. */
  lemma {:induction false} RunFixed(s: State, acts: seq<Act>)
    requires Runs(s, acts)
    ensures var t := Run(s, acts); t.need == s.need && t.known == s.known && |t.locks| == |s.locks|
    decreases |acts|
  {
    if |acts| > 0 {
      RunFixed(Step(s, acts[0]), acts[1..]);
    }
  }

  // ---------- the end of the loop ----------

  /** The hosts that other users have locked. */
  function Others(locks: seq<Owner>): nat {
    if |locks| == 0 then 0 else One(locks[0] == Other) + Others(locks[1..])
  }

  lemma {:induction false} OthersAt(locks: seq<Owner>, h: nat, owner: Owner)
    requires h < |locks|
    ensures Others(locks[h := owner]) + One(locks[h] == Other) == Others(locks) + One(owner == Other)
  {
    if h > 0 {
      assert locks[h := owner][1..] == locks[1..][h - 1 := owner];
      OthersAt(locks[1..], h - 1, owner);
    } else {
      assert locks[h := owner][1..] == locks[1..];
    }
  }

  /** Its own steps leave the other users' locks alone. */
  lemma OwnKeepsOthers(s: State, a: Act)
    requires Inv(s) && Enabled(s, a) && IsOwn(a)
    ensures Others(Step(s, a).locks) == Others(s.locks)
  {
    if a.Acquire? {
      OthersAt(s.locks, s.busy[a.k].req.shard, Worker);
    } else if a.Finish? {
      OthersAt(s.locks, s.busy[a.k].req.shard, Free);
    }
  }

  /** The next step towards the end: one of its own or, if every worker waits, that another user
      releases a host. */
  lemma NextStep(s: State) returns (a: Act)
    requires Inv(s) && Looping(s)
    ensures Enabled(s, a) && !a.OtherLock?
    ensures IsOwn(a) ==> Rank(Step(s, a)) < Rank(s) && Others(Step(s, a).locks) == Others(s.locks)
    ensures !IsOwn(a) ==> Rank(Step(s, a)) == Rank(s) && Others(Step(s, a).locks) < Others(s.locks)
  {
    Progress(s);
    if b :| Enabled(s, b) && IsOwn(b) {
      a := b;
      RankDrops(s, a);
      OwnKeepsOthers(s, a);
    } else {
      assert Waits(s, 0);
      var h := s.busy[0].req.shard;
      a := OtherUnlock(h);
      OthersAt(s.locks, h, Free);
    }
  }

  /** From every state the loop can be brought to its end, if the other users do no more than
      release hosts; and by its own steps alone if they have none. */
  lemma {:induction false} CanEnd(s: State) returns (acts: seq<Act>)
    requires Inv(s)
    ensures Runs(s, acts) && !Looping(Run(s, acts))
    ensures forall i :: 0 <= i < |acts| ==> !acts[i].OtherLock?
    ensures |acts| - Own(acts) <= Others(s.locks)
    decreases Rank(s), Others(s.locks)
  {
    acts := [];
    if Looping(s) {
      var a := NextStep(s);
      StepKeeps(s, a);
      var rest := CanEnd(Step(s, a));
      acts := [a] + rest;
      assert acts[1..] == rest;
    }
  }

  lemma {:induction false} OwnRunKeepsOthers(s: State, acts: seq<Act>)
    requires Inv(s) && Runs(s, acts) && Own(acts) == |acts|
    ensures Others(Run(s, acts).locks) == Others(s.locks)
    decreases |acts|
  {
    if |acts| > 0 {
      OwnAtMost(acts[1..]);
      OwnKeepsOthers(s, acts[0]);
      StepKeeps(s, acts[0]);
      OwnRunKeepsOthers(Step(s, acts[0]), acts[1..]);
    }
  }

  lemma {:induction false} OwnAtMost(acts: seq<Act>)
    ensures Own(acts) <= |acts|
  {
    if |acts| > 0 {
      OwnAtMost(acts[1..]);
    }
  }

  lemma {:induction false} NoOthersAt(locks: seq<Owner>, h: nat)
    requires h < |locks| && Others(locks) == 0
    ensures locks[h] != Other
  {
    if h > 0 {
      NoOthersAt(locks[1..], h - 1);
    }
  }

  /** However its steps are scheduled, without other users the download comes to its end: a run of
      its own that cannot be continued has left the loop (and RunKeeps bounds its length). */
  lemma EveryRunEnds(s: State, acts: seq<Act>)
    requires Inv(s) && Others(s.locks) == 0 && Runs(s, acts) && Own(acts) == |acts|
    requires !exists a :: Enabled(Run(s, acts), a) && IsOwn(a)
    ensures !Looping(Run(s, acts))
  {
    var t := Run(s, acts);
    RunKeeps(s, acts);
    OwnRunKeepsOthers(s, acts);
    if Looping(t) {
      Progress(t);
      assert Waits(t, 0);
      NoOthersAt(t.locks, t.busy[0].req.shard);
    }
  }

  // ---------- what good and failed mean ----------

  predicate Downloaded(s: State, acts: seq<Act>, x: nat)
    requires Runs(s, acts)
    decreases |acts|
  {
    |acts| > 0 && (Downloads(s, acts[0], x) || Downloaded(Step(s, acts[0]), acts[1..], x))
  }

  predicate GivenUp(s: State, acts: seq<Act>, x: nat)
    requires Runs(s, acts)
    decreases |acts|
  {
    |acts| > 0 && (GivesUp(s, acts[0], x) || GivenUp(Step(s, acts[0]), acts[1..], x))
  }

  lemma {:induction false} RunAnswers(s: State, acts: seq<Act>, x: nat)
    requires Runs(s, acts)
    ensures var t := Run(s, acts);
      && (Got(t, x) <==> Got(s, x) || Downloaded(s, acts, x)) && (Lost(t, x) <==> Lost(s, x) || GivenUp(s, acts, x))
      && (x in t.filled <==> x in s.filled || Downloaded(s, acts, x))
    decreases |acts|
  {
    if |acts| > 0 {
      StepAnswers(s, acts[0], x);
      RunAnswers(Step(s, acts[0]), acts[1..], x);
    }
  }

  /** In every run of a download: a shard has been answered for as good exactly if it was downloaded, and
      then its buffer is full and its host in the set; and as failed exactly if it was given up. */
  lemma DownloadAnswers(order: seq<nat>, need: nat, known: set<nat>, acts: seq<Act>, x: nat)
    requires IsOrder(order) && need <= |order| && Runs(Start(order, need, known), acts)
    ensures var s, t := Start(order, need, known), Run(Start(order, need, known), acts);
      && (Got(t, x) <==> Downloaded(s, acts, x)) && (Got(t, x) <==> x in t.filled) && (Got(t, x) ==> x in known)
      && (Lost(t, x) <==> GivenUp(s, acts, x)) && !(Got(t, x) && Lost(t, x))
  {
    var s, t := Start(order, need, known), Run(Start(order, need, known), acts);
    RunAnswers(s, acts, x);
    StartInv(order, need, known);
    RunKeeps(s, acts);
    RunFixed(s, acts);
    if Got(t, x) && Lost(t, x) {
      NotBoth(t, x);
    }
  }

  lemma NotBoth(s: State, x: nat)
    requires Partitioned(s)
    ensures !(Got(s, x) && Lost(s, x))
  {
    assert Placed(s, x);
    AnswerCounts(s.resps, x);
    NotThere(s.good, x);
    NotThere(s.failed, x);
  }

  lemma {:induction false} AnswerCounts(resps: seq<Resp>, x: nat)
    ensures (exists r :: r in resps && r.req.shard == x) ==> InResps(resps, x) > 0
    ensures (exists r, q :: r in resps && q in resps && r.req.shard == x && q.req.shard == x && r.result != q.result) ==>
      InResps(resps, x) > 1
  {
    if |resps| > 0 {
      AnswerCounts(resps[1..], x);
      assert resps == [resps[0]] + resps[1..];
    }
  }

  // ---------- retries ----------

  /** How many requests for shard x have not been retried: those that do not block. */
  function FreshReqs(q: seq<Req>, x: nat): nat {
    if |q| == 0 then 0 else One(q[0] == Req(x, false)) + FreshReqs(q[1..], x)
  }

  function FreshWork(b: seq<Work>, x: nat): nat {
    if |b| == 0 then 0 else One(b[0].req == Req(x, false)) + FreshWork(b[1..], x)
  }

  function FreshResps(r: seq<Resp>, x: nat): nat {
    if |r| == 0 then 0 else One(r[0].req == Req(x, false)) + FreshResps(r[1..], x)
  }

  function Untried(s: State, x: nat): nat {
    FreshReqs(s.queue, x) + FreshReqs(s.reqs, x) + FreshWork(s.busy, x) + FreshResps(s.resps, x)
  }

  lemma {:induction false} FreshReqsSnoc(q: seq<Req>, r: Req, x: nat)
    ensures FreshReqs(q + [r], x) == FreshReqs(q, x) + One(r == Req(x, false))
  {
    if |q| > 0 {
      assert (q + [r])[1..] == q[1..] + [r];
      FreshReqsSnoc(q[1..], r, x);
    }
  }

  lemma {:induction false} FreshRespsSnoc(q: seq<Resp>, r: Resp, x: nat)
    ensures FreshResps(q + [r], x) == FreshResps(q, x) + One(r.req == Req(x, false))
  {
    if |q| > 0 {
      assert (q + [r])[1..] == q[1..] + [r];
      FreshRespsSnoc(q[1..], r, x);
    }
  }

  lemma {:induction false} FreshWorkSnoc(b: seq<Work>, w: Work, x: nat)
    ensures FreshWork(b + [w], x) == FreshWork(b, x) + One(w.req == Req(x, false))
  {
    if |b| > 0 {
      assert (b + [w])[1..] == b[1..] + [w];
      FreshWorkSnoc(b[1..], w, x);
    }
  }

  lemma {:induction false} FreshWorkAt(b: seq<Work>, k: nat, w: Work, x: nat)
    requires k < |b| && w.req == b[k].req
    ensures FreshWork(Remove(b, k), x) + One(b[k].req == Req(x, false)) == FreshWork(b, x)
    ensures FreshWork(b[k := w], x) == FreshWork(b, x)
    decreases |b|
  {
    if k > 0 {
      assert Remove(b, k)[1..] == Remove(b[1..], k - 1) && b[k := w][1..] == b[1..][k - 1 := w];
      FreshWorkAt(b[1..], k - 1, w, x);
    } else {
      assert Remove(b, k) == b[1..] && b[k := w][1..] == b[1..];
    }
  }

  lemma RespondUntried(s: State, k: nat, result: Result, x: nat)
    requires k < |s.busy|
    ensures Untried(Respond(s, k, result), x) == Untried(s, x)
  {
    FreshWorkAt(s.busy, k, s.busy[k], x);
    FreshRespsSnoc(s.resps, Resp(s.busy[k].req, result), x);
  }

  /** The step puts shard x back into the queue. */
  predicate Retries(s: State, a: Act, x: nat)
    requires Enabled(s, a)
  {
    a.Receive? && s.resps[0].req.shard == x && s.resps[0].result == Acquired
  }

  lemma UntriedDrops(s: State, a: Act, x: nat)
    requires Inv(s) && Enabled(s, a)
    ensures Untried(Step(s, a), x) + One(Retries(s, a, x)) <= Untried(s, x)
  {
    match a
    case Take => FreshWorkSnoc(s.busy, Work(s.reqs[0], false), x);
    case Acquire(k) => FreshWorkAt(s.busy, k, Work(s.busy[k].req, true), x);
    case Refuse(k) => RespondUntried(s, k, Acquired, x);
    case NoHost(k) => RespondUntried(s, k, Failed, x);
    case Finish(k, ok) => RespondUntried(Released(s, k, ok), k, if ok then Good else Failed, x);
    case Receive =>
      var r := s.resps[0];
      var q := if r.result == Acquired then s.queue + [Req(r.req.shard, true)] else s.queue;
      FreshReqsSnoc(s.queue, Req(r.req.shard, true), x);
      if |q| > 0 {
        FreshReqsSnoc(s.reqs, q[0], x);
      }
    case OtherLock(_) =>
    case OtherUnlock(_) =>
  }

  function RetryCount(s: State, acts: seq<Act>, x: nat): nat
    requires Runs(s, acts)
    decreases |acts|
  {
    if |acts| == 0 then 0 else One(Retries(s, acts[0], x)) + RetryCount(Step(s, acts[0]), acts[1..], x)
  }

  lemma {:induction false} RetryBound(s: State, acts: seq<Act>, x: nat)
    requires Inv(s) && Runs(s, acts)
    ensures RetryCount(s, acts, x) <= Untried(s, x)
    decreases |acts|
  {
    if |acts| > 0 {
      StepKeeps(s, acts[0]);
      UntriedDrops(s, acts[0], x);
      RetryBound(Step(s, acts[0]), acts[1..], x);
    }
  }

  lemma {:induction false} FreshAtMost(q: seq<Req>, x: nat)
    ensures FreshReqs(q, x) <= InReqs(q, x)
  {
    if |q| > 0 {
      FreshAtMost(q[1..], x);
    }
  }

  /** The hosts in some order. */
  ghost predicate IsOrder(order: seq<nat>) {
    forall x: nat :: InShards(order, x) == if x < |order| then 1 else 0
  }

  lemma {:induction false} InReqsOf(q: seq<Req>, order: seq<nat>, x: nat)
    requires |q| == |order| && forall i :: 0 <= i < |q| ==> q[i].shard == order[i]
    ensures InReqs(q, x) == InShards(order, x)
  {
    if |q| > 0 {
      InReqsOf(q[1..], order[1..], x);
    }
  }

  lemma {:induction false} FreshRank(q: seq<Req>)
    requires forall i :: 0 <= i < |q| ==> !q[i].block
    ensures QueueRank(q) == 11 * |q| && ReqRank(q) == 10 * |q|
  {
    if |q| > 0 {
      FreshRank(q[1..]);
    }
  }

  lemma StartInv(order: seq<nat>, need: nat, known: set<nat>)
    requires IsOrder(order) && need <= |order|
    ensures Inv(Start(order, need, known)) && Rank(Start(order, need, known)) == 11 * |order| - need
  {
    var s := Start(order, need, known);
    var all := s.reqs + s.queue;
    forall x ensures Placed(s, x) {
      InReqsConcat(s.reqs, s.queue, x);
      InReqsOf(all, order, x);
    }
    FreshRank(s.reqs);
    FreshRank(s.queue);
  }

  /** Any run of a download: the invariant holds throughout, and it takes at most eleven steps of
      its own for each host and retries no shard twice. */
  lemma DownloadRuns(order: seq<nat>, need: nat, known: set<nat>, acts: seq<Act>)
    requires IsOrder(order) && need <= |order| && Runs(Start(order, need, known), acts)
    ensures Inv(Run(Start(order, need, known), acts)) && Own(acts) <= 11 * |order|
    ensures forall x :: RetryCount(Start(order, need, known), acts, x) <= 1
  {
    var s := Start(order, need, known);
    StartInv(order, need, known);
    forall x ensures RetryCount(s, acts, x) <= 1 {
      RetryBound(s, acts, x);
      FreshAtMost(s.queue, x);
      FreshAtMost(s.reqs, x);
      assert Placed(s, x);
    }
    RunKeeps(Start(order, need, known), acts);
  }

  lemma {:induction false} FreeLocks(locks: seq<Owner>)
    requires forall h :: 0 <= h < |locks| ==> locks[h] == Free
    ensures Others(locks) == 0
  {
    if |locks| > 0 {
      FreeLocks(locks[1..]);
    }
  }

  /** A download that nobody else interferes with, however it is scheduled and whichever hosts
      fail: when no more steps can be taken it has filled the buffers of as many shards as it needs, of
      hosts in the set, and no worker is left to touch one; or every shard has been downloaded or given up,
      and fewer than it needs have been downloaded. */
  lemma DownloadEnds(order: seq<nat>, need: nat, known: set<nat>, acts: seq<Act>)
    requires IsOrder(order) && need <= |order| && Runs(Start(order, need, known), acts) && Own(acts) == |acts|
    requires !exists a :: Enabled(Run(Start(order, need, known), acts), a) && IsOwn(a)
    ensures var t := Run(Start(order, need, known), acts);
      && Outstanding(t) == 0 && t.filled <= known && |t.filled| == |t.good| <= need
      && (forall x :: x in t.filled <==> Downloaded(Start(order, need, known), acts, x))
      && (|t.good| < need ==> forall x :: 0 <= x < |order| && x !in t.filled ==> GivenUp(Start(order, need, known), acts, x))
  {
    var s := Start(order, need, known);
    StartInv(order, need, known);
    FreeLocks(s.locks);
    EveryRunEnds(s, acts);
    RunKeeps(s, acts);
    RunFixed(s, acts);
    var t := Run(s, acts);
    LoopEnds(t);
    forall x ensures Got(t, x) <==> x in t.good {
    }
    forall x ensures (x in t.filled <==> Downloaded(s, acts, x)) && (x in t.filled <==> x in t.good)
      ensures x in t.failed <==> GivenUp(s, acts, x)
    {
      RunAnswers(s, acts, x);
    }
    GoodAreMany(t);
    if |t.good| < need {
      forall x | 0 <= x < |order| && x !in t.filled ensures GivenUp(s, acts, x) {
        assert Placed(t, x);
        NotThere(t.good, x);
        NotThere(t.failed, x);
      }
    }
  }

  /** No shard is good twice. */
  lemma GoodAreMany(t: State)
    requires Partitioned(t) && forall x :: x in t.filled <==> x in t.good
    ensures |t.filled| == |t.good|
  {
    forall x: nat ensures InShards(t.good, x) <= 1 {
      assert Placed(t, x);
    }
    CountDistinct(t.good, t.filled);
  }

  lemma {:induction false} CountDistinct(s: seq<nat>, xs: set<nat>)
    requires (forall x :: x in xs <==> x in s) && forall x: nat :: InShards(s, x) <= 1
    ensures |xs| == |s|
    decreases |s|
  {
    if |s| > 0 {
      assert s == [s[0]] + s[1..];
      NotThere(s[1..], s[0]);
      assert InShards(s, s[0]) <= 1;
      forall x: nat ensures InShards(s[1..], x) <= 1 {
        assert InShards(s, x) <= 1;
      }
      CountDistinct(s[1..], xs - {s[0]});
    }
  }

  lemma {:induction false} NotThere(s: seq<nat>, x: nat)
    ensures x !in s <==> InShards(s, x) == 0
  {
    if |s| > 0 {
      NotThere(s[1..], x);
      assert s == [s[0]] + s[1..];
    }
  }
}
