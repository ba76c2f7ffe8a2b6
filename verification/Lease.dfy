/**
 The Kubernetes identity lease: processes that read, compare-and-swap and
 believe, over a store with resource versions and a shared monotone clock.
 */
module Lease {
  import opened Wrappers

  const SECOND := 1_000_000_000
  const DEFAULT_SECONDS := 30
  const MAX_ATTEMPTS := 3
  const EPOCHS := 0x1_0000_0000_0000_0000

  type Epoch = x: nat | x < EPOCHS

  // ---- the lease object -------------------------------------------------------------

  /** A stored Lease: an absent holder is "", `annotation` is the parsed epoch annotation. */
  datatype Lease = Lease(
    holder: string, seconds: Option<int>, acquired: Option<int>, renewed: Option<int>,
    annotation: Option<Epoch>, transitions: Option<int>)

  /** What a process is told it holds. */
  datatype Record = Record(holder: string, epoch: Epoch, renewed: int, expires: int)

  /** Go's conversion to int32. */
  function Wrap32(x: int): (r: int)
    ensures -0x8000_0000 <= r < 0x8000_0000 && (x - r) % 0x1_0000_0000 == 0
  {
    (x + 0x8000_0000) % 0x1_0000_0000 - 0x8000_0000
  }

  /** Go's integer division truncates toward zero. */
  function WholeSeconds(ttl: int): int {
    if ttl >= 0 then ttl / SECOND else -((-ttl) / SECOND)
  }

  /** The duration a process writes into the lease; never zero or less. */
  function LeaseSeconds(ttl: int): (s: int)
    ensures s > 0
    ensures SECOND <= ttl < 0x8000_0000 * SECOND ==> s * SECOND <= ttl < (s + 1) * SECOND
    ensures -0x8000_0000 * SECOND < ttl < SECOND ==> s == DEFAULT_SECONDS
  {
    var s := Wrap32(WholeSeconds(ttl));
    if s <= 0 then DEFAULT_SECONDS else s
  }

  function NextEpoch(e: Epoch): (r: Epoch)
    ensures e + 1 < EPOCHS ==> r == e + 1
  {
    (e + 1) % EPOCHS
  }

  function LeaseEpoch(l: Lease): Epoch {
    if l.annotation.Some? then l.annotation.value
    else if l.transitions.Some? && 0 < l.transitions.value < EPOCHS then l.transitions.value
    else 0
  }

  /** How long the lease runs, for a reader whose own ttl is `ttl`. */
  function Ttl(l: Lease, ttl: int): int {
    if l.seconds.Some? && l.seconds.value > 0 then l.seconds.value * SECOND else ttl
  }

  function ActiveHeldByOther(l: Lease, holder: string, now: int, ttl: int): bool {
    if l.holder == "" || l.holder == holder then false
    else if l.renewed.None? then true
    else now < l.renewed.value + Ttl(l, ttl)
  }

  /** `applyLeaseUpdate`. */
  function Updated(l: Lease, holder: string, now: int, ttl: int, epoch: Epoch): Lease {
    var base := l.(holder := holder, seconds := Some(LeaseSeconds(ttl)), annotation := Some(epoch));
    if holder == "" then base.(renewed := None)
    else base.(acquired := if l.acquired.None? || l.holder != holder then Some(now) else l.acquired,
               renewed := Some(now), transitions := Some(Wrap32(epoch)))
  }

  function NewLease(holder: string, now: int, ttl: int): Lease {
    Updated(Lease("", None, None, None, None, None), holder, now, ttl, 1)
  }

  function RecordFromLease(l: Lease, now: int, ttl: int): Record {
    var renewed := if l.renewed.None? then now else l.renewed.value;
    Record(l.holder, LeaseEpoch(l), renewed, renewed + Ttl(l, ttl))
  }

  // ---- the system ---------------------------------------------------------------------

  datatype Op = AcquireOp | RenewOp | ReleaseOp

  /** A write request on its way to the server: a create, or an update against version `rv`. */
  datatype Message = Message(op: Op, from: string, rv: Option<nat>, body: Lease, now: int)

  /** A process, named by its holder id. */
  datatype Process = Process(ttl: int, record: Option<Record>, closed: bool)

  datatype Stored = Stored(rv: nat, lease: Lease)

  datatype State = State(
    now: int, stored: Option<Stored>, procs: map<string, Process>,
    gets: set<(string, Option<Stored>)>, sent: set<Message>, replies: set<(string, Record)>,
    acquired: seq<(string, Epoch)>)

  datatype Step =
    | Tick(d: nat)
    | Get(p: string)
    | SendAcquire(p: string, snap: Option<Stored>)
    | SendRenew(p: string, at: Stored)
    | SendRelease(p: string, at: Stored)
    | Serve(m: Message)
    | Adopt(p: string, record: Record)
    | Lose(p: string)
    | Close(p: string)

  /** The request `Acquire` builds from what it read, if it may. */
  function AcquireRequest(p: string, snap: Option<Stored>, now: int, ttl: int): Option<Message> {
    match snap
    case None => Some(Message(AcquireOp, p, None, NewLease(p, now, ttl), now))
    case Some(s) =>
      if ActiveHeldByOther(s.lease, p, now, ttl) then None
      else Some(Message(AcquireOp, p, Some(s.rv), Updated(s.lease, p, now, ttl, NextEpoch(LeaseEpoch(s.lease))), now))
  }

  function RenewRequest(p: string, snap: Stored, now: int, ttl: int): Option<Message> {
    if snap.lease.holder != p then None
    else Some(Message(RenewOp, p, Some(snap.rv), Updated(snap.lease, p, now, ttl, LeaseEpoch(snap.lease)), now))
  }

  function ReleaseRequest(p: string, snap: Stored, now: int, ttl: int): Option<Message> {
    if snap.lease.holder != p then None
    else Some(Message(ReleaseOp, p, Some(snap.rv), Updated(snap.lease, "", now, ttl, LeaseEpoch(snap.lease)), now))
  }

  /** The server accepts a create when there is nothing, an update when the version matches. */
  ghost predicate Accepts(s: State, m: Message) {
    if m.rv.None? then s.stored.None? else s.stored.Some? && s.stored.value.rv == m.rv.value
  }

  ghost function Served(s: State, m: Message): State
    requires m.from in s.procs
  {
    var rv := if s.stored.None? then 1 else s.stored.value.rv + 1;
    s.(stored := Some(Stored(rv, m.body)),
       replies := if m.op.ReleaseOp? then s.replies
                  else s.replies + {(m.from, RecordFromLease(m.body, m.now, s.procs[m.from].ttl))},
       acquired := if m.op.AcquireOp? then s.acquired + [(m.from, LeaseEpoch(m.body))] else s.acquired)
  }

  ghost predicate Next(s: State, step: Step, s': State) {
    match step
    case Tick(d) => s' == s.(now := s.now + d)
    case Get(p) => p in s.procs && s' == s.(gets := s.gets + {(p, s.stored)})
    case SendAcquire(p, snap) =>
      && p in s.procs && !s.procs[p].closed && (p, snap) in s.gets
      && var m := AcquireRequest(p, snap, s.now, s.procs[p].ttl);
         m.Some? && s' == s.(sent := s.sent + {m.value})
    case SendRenew(p, snap) =>
      && p in s.procs && s.procs[p].record.Some? && (p, Some(snap)) in s.gets
      && var m := RenewRequest(p, snap, s.now, s.procs[p].ttl);
         m.Some? && s' == s.(sent := s.sent + {m.value})
    case SendRelease(p, snap) =>
      && p in s.procs && s.procs[p].closed && (p, Some(snap)) in s.gets
      && var m := ReleaseRequest(p, snap, s.now, s.procs[p].ttl);
         m.Some? && s' == s.(sent := s.sent + {m.value})
    case Serve(m) =>
      // a request may be served long after it was sent, twice, or after its sender gave up
      && m in s.sent && m.from in s.procs
      && s' == if Accepts(s, m) then Served(s, m) else s
    case Adopt(p, record) =>
      && p in s.procs && !s.procs[p].closed && (p, record) in s.replies
      && s' == s.(procs := s.procs[p := s.procs[p].(record := Some(record))])
    case Lose(p) =>
      p in s.procs && s' == s.(procs := s.procs[p := s.procs[p].(record := None)])
    case Close(p) =>
      p in s.procs && s' == s.(procs := s.procs[p := s.procs[p].(record := None, closed := true)])
  }

  /** The process holds a record that has not expired and has not begun to shut down. */
  ghost predicate Believes(s: State, p: string) {
    p in s.procs && !s.procs[p].closed && s.procs[p].record.Some? && s.now < s.procs[p].record.value.expires
  }

  /** Nobody has acted yet; the store may hold a lease from before, stamped by the same clock. */
  ghost predicate Init(s: State) {
    && s.gets == {} && s.sent == {} && s.replies == {} && s.acquired == []
    && (s.stored.Some? && s.stored.value.lease.renewed.Some? ==> s.stored.value.lease.renewed.value <= s.now)
    && (forall p :: p in s.procs ==> p != "" && s.procs[p].record.None?)
  }

  // ---- the invariant -------------------------------------------------------------------

  ghost predicate ReadOk(s: State, snap: Option<Stored>) {
    snap.Some? ==>
      && s.stored.Some? && snap.value.rv <= s.stored.value.rv
      && (snap.value.rv == s.stored.value.rv ==> snap.value == s.stored.value)
  }

  /** The request was built from the stored lease, unless that has changed since. */
  ghost predicate SentOk(s: State, m: Message) {
    && m.from in s.procs && m.now <= s.now
    && (m.op.ReleaseOp? ==> s.procs[m.from].closed)
    && (m.op.RenewOp? ==> s.replies != {})
    && (m.rv.None? ==> Some(m) == AcquireRequest(m.from, None, m.now, s.procs[m.from].ttl))
    && (m.rv.Some? ==> s.stored.Some? && m.rv.value <= s.stored.value.rv)
    && (m.rv.Some? && m.rv.value == s.stored.value.rv ==>
          && (s.stored.value.lease.renewed.Some? ==> s.stored.value.lease.renewed.value <= m.now)
          && Some(m) == match m.op
             case AcquireOp => AcquireRequest(m.from, s.stored, m.now, s.procs[m.from].ttl)
             case RenewOp => RenewRequest(m.from, s.stored.value, m.now, s.procs[m.from].ttl)
             case ReleaseOp => ReleaseRequest(m.from, s.stored.value, m.now, s.procs[m.from].ttl))
  }

  /** The stored lease is the holder's own and outlives the record. */
  ghost predicate Backs(s: State, p: string, record: Record)
    requires p in s.procs
  {
    && s.stored.Some?
    && var l := s.stored.value.lease;
       && l.holder == p && l.renewed.Some? && l.seconds == Some(LeaseSeconds(s.procs[p].ttl))
       && record.expires <= l.renewed.value + l.seconds.value * SECOND
  }

  ghost predicate ReplyOk(s: State, p: string, record: Record) {
    p in s.procs && (s.procs[p].closed || record.expires <= s.now || Backs(s, p, record))
  }

  ghost predicate Inv(s: State) {
    && (s.stored.Some? && s.stored.value.lease.renewed.Some? ==> s.stored.value.lease.renewed.value <= s.now)
    && (forall p :: p in s.procs ==> p != "" && (s.procs[p].record.Some? ==> (p, s.procs[p].record.value) in s.replies))
    && (forall r :: r in s.gets ==> ReadOk(s, r.1))
    && (forall m :: m in s.sent ==> SentOk(s, m))
    && (forall r :: r in s.replies ==> ReplyOk(s, r.0, r.1))
  }

  lemma InitHolds(s: State)
    requires Init(s)
    ensures Inv(s)
  {
  }

  lemma ServeStep(s: State, m: Message, s': State)
    requires Inv(s) && Next(s, Serve(m), s')
    ensures Inv(s')
  {
    if Accepts(s, m) {
      assert SentOk(s, m);
      assert s'.stored.value.lease == m.body;
      forall r | r in s'.replies ensures ReplyOk(s', r.0, r.1) {
        if r in s.replies {
          assert ReplyOk(s, r.0, r.1);
        }
      }
      forall n | n in s'.sent ensures SentOk(s', n) {
        assert SentOk(s, n);
      }
    }
  }

  /** What other steps may change: time passes, processes adopt, lose or close. */
  ghost predicate Later(s: State, s': State) {
    && s'.stored == s.stored && s'.now >= s.now && s'.replies == s.replies
    && s'.procs.Keys == s.procs.Keys
    && forall p :: p in s.procs ==> s'.procs[p].ttl == s.procs[p].ttl && (s.procs[p].closed ==> s'.procs[p].closed)
  }

  lemma SentSurvives(s: State, s': State, m: Message)
    requires SentOk(s, m) && Later(s, s')
    ensures SentOk(s', m)
  {
  }

  lemma ReplySurvives(s: State, s': State, p: string, record: Record)
    requires ReplyOk(s, p, record) && Later(s, s')
    ensures ReplyOk(s', p, record)
  {
  }

  lemma NewRequest(s: State, step: Step, s': State, m: Message)
    requires Inv(s) && Next(s, step, s') && (step.SendAcquire? || step.SendRenew? || step.SendRelease?)
    requires m in s'.sent && m !in s.sent
    ensures SentOk(s, m)
  {
    var seen := if step.SendAcquire? then step.snap else Some(step.at);
    assert (step.p, seen) in s.gets && ReadOk(s, (step.p, seen).1);
  }

  lemma QuietStep(s: State, step: Step, s': State)
    requires Inv(s) && Next(s, step, s') && !step.Serve?
    ensures Inv(s')
  {
    assert Later(s, s');
    forall m | m in s'.sent ensures SentOk(s', m) {
      if m !in s.sent {
        NewRequest(s, step, s', m);
      }
      SentSurvives(s, s', m);
    }
    forall r | r in s'.replies ensures ReplyOk(s', r.0, r.1) {
      ReplySurvives(s, s', r.0, r.1);
    }
  }

  /** Every step keeps the invariant. */
  lemma StepKeeps(s: State, step: Step, s': State)
    requires Inv(s) && Next(s, step, s')
    ensures Inv(s')
  {
    if step.Serve? {
      ServeStep(s, step.m, s');
    } else {
      QuietStep(s, step, s');
    }
  }

  lemma OneBeliever(s: State, p: string, q: string)
    requires Inv(s) && Believes(s, p) && Believes(s, q)
    ensures p == q
  {
    assert ReplyOk(s, p, (p, s.procs[p].record.value).1);
    assert ReplyOk(s, q, (q, s.procs[q].record.value).1);
  }

  // ---- runs ------------------------------------------------------------------------------

  ghost predicate IsRun(states: seq<State>, steps: seq<Step>) {
    |states| == |steps| + 1 && forall n :: 0 <= n < |steps| ==> Next(states[n], steps[n], states[n + 1])
  }

  lemma {:induction false} RunKeeps(states: seq<State>, steps: seq<Step>, n: nat)
    requires IsRun(states, steps) && Init(states[0]) && n < |states|
    ensures Inv(states[n])
  {
    if n == 0 {
      InitHolds(states[0]);
    } else {
      RunKeeps(states, steps, n - 1);
      StepKeeps(states[n - 1], steps[n - 1], states[n]);
    }
  }

  /** At every moment of every run at most one process believes its lease is unexpired. */
  lemma AtMostOneHolder(states: seq<State>, steps: seq<Step>, n: nat, p: string, q: string)
    requires IsRun(states, steps) && Init(states[0]) && n < |states|
    requires Believes(states[n], p) && Believes(states[n], q)
    ensures p == q
  {
    RunKeeps(states, steps, n);
    OneBeliever(states[n], p, q);
  }

  // ---- who may take the lease, and when --------------------------------------------------------

  /** Nobody holds the lease. */
  ghost predicate Free(l: Lease) {
    l.holder == "" && l.renewed.None?
  }

  /** When a lease that names a holder runs out; never, if it carries no renew time. */
  ghost function RunsOut(l: Lease, ttl: int): Option<int> {
    if l.renewed.None? then None
    else if l.seconds.Some? && l.seconds.value > 0 then Some(l.renewed.value + l.seconds.value * SECOND)
    else Some(l.renewed.value + ttl)
  }

  /** A process may acquire exactly when nobody holds the lease, it does itself, or the holder's time has run out. */
  lemma AcquirableIff(p: string, s: Stored, now: int, ttl: int)
    ensures AcquireRequest(p, Some(s), now, ttl).Some? <==>
            || s.lease.holder == "" || s.lease.holder == p
            || (RunsOut(s.lease, ttl).Some? && RunsOut(s.lease, ttl).value <= now)
  {
  }

  /** What a process is told of a lease it wrote ends at the very moment another may take that lease. */
  lemma ExpiryIsTakeover(p: string, snap: Stored, now: int, ttl: int, m: Message, rv: nat, q: string, later: int, ttl': int)
    requires p != "" && q != p
    requires Some(m) == AcquireRequest(p, Some(snap), now, ttl) || Some(m) == RenewRequest(p, snap, now, ttl)
            || Some(m) == AcquireRequest(p, None, now, ttl)
    ensures AcquireRequest(q, Some(Stored(rv, m.body)), later, ttl').Some? <==>
            later >= RecordFromLease(m.body, m.now, ttl).expires
    ensures RecordFromLease(m.body, m.now, ttl).expires == now + LeaseSeconds(ttl) * SECOND
  {
  }

  /** An open process that may acquire can: read, send, be served. */
  lemma CanAcquire(s: State, p: string) returns (states: seq<State>, steps: seq<Step>)
    requires p != "" && p in s.procs && !s.procs[p].closed && AcquireRequest(p, s.stored, s.now, s.procs[p].ttl).Some?
    ensures IsRun(states, steps) && states[0] == s && |steps| == 3
    ensures states[3].stored.Some? && states[3].stored.value.lease.holder == p
    ensures states[3].acquired == s.acquired + [(p, LeaseEpoch(states[3].stored.value.lease))]
    ensures exists r :: (p, r) in states[3].replies && r.expires == s.now + LeaseSeconds(s.procs[p].ttl) * SECOND
  {
    var m := AcquireRequest(p, s.stored, s.now, s.procs[p].ttl).value;
    var read := s.(gets := s.gets + {(p, s.stored)});
    var sent := read.(sent := read.sent + {m});
    var served := Served(sent, m);
    states, steps := [s, read, sent, served], [Get(p), SendAcquire(p, s.stored), Serve(m)];
    assert (p, RecordFromLease(m.body, m.now, s.procs[p].ttl)) in served.replies;
  }

  ghost predicate Unheld(s: State) {
    s.stored.Some? && Free(s.stored.value.lease)
  }

  ghost predicate AcquireServed(s: State, step: Step) {
    step.Serve? && step.m.op.AcquireOp? && Accepts(s, step.m)
  }

  ghost predicate ReleaseServed(s: State, step: Step) {
    step.Serve? && step.m.op.ReleaseOp? && Accepts(s, step.m)
  }

  /** A release that the server takes leaves the lease free; anything but an acquire leaves a free lease alone. */
  lemma FreeStep(s: State, step: Step, s': State)
    requires Inv(s) && Next(s, step, s') && !AcquireServed(s, step)
    requires ReleaseServed(s, step) || Unheld(s)
    ensures Unheld(s')
  {
    if step.Serve? && Accepts(s, step.m) {
      assert SentOk(s, step.m);
    }
  }

  lemma StillUnheld(states: seq<State>, steps: seq<Step>, i: nat)
    requires IsRun(states, steps) && Init(states[0]) && i < |steps| && !AcquireServed(states[i], steps[i])
    requires ReleaseServed(states[i], steps[i]) || Unheld(states[i])
    ensures Unheld(states[i + 1])
  {
    RunKeeps(states, steps, i);
    FreeStep(states[i], steps[i], states[i + 1]);
  }

  lemma {:induction false} StaysFree(states: seq<State>, steps: seq<Step>, n: nat, k: nat)
    requires IsRun(states, steps) && Init(states[0]) && n < k < |states|
    requires ReleaseServed(states[n], steps[n])
    requires forall i :: n < i < k ==> !AcquireServed(states[i], steps[i])
    ensures Unheld(states[k])
    decreases k
  {
    if n + 1 < k {
      StaysFree(states, steps, n, k - 1);
    }
    StillUnheld(states, steps, k - 1);
  }

  /** Any process may acquire, at any time. */
  ghost predicate OpenToAll(stored: Option<Stored>) {
    forall p, now, ttl :: AcquireRequest(p, stored, now, ttl).Some?
  }

  /**
   In every run, once a release is served and until the next acquire is, nobody
   holds the lease and any process may acquire it at any time.
   */
  lemma ReleasedStaysFree(states: seq<State>, steps: seq<Step>, n: nat, k: nat)
    requires IsRun(states, steps) && Init(states[0]) && n < k < |states|
    requires ReleaseServed(states[n], steps[n])
    requires forall i :: n < i < k ==> !AcquireServed(states[i], steps[i])
    ensures Unheld(states[k]) && OpenToAll(states[k].stored)
  {
    StaysFree(states, steps, n, k);
    FreeIsOpen(states[k].stored.value);
  }

  lemma FreeIsOpen(s: Stored)
    requires Free(s.lease)
    ensures OpenToAll(Some(s))
  {
  }

  // ---- epochs --------------------------------------------------------------------------------

  ghost function StoredEpoch(s: State): nat {
    if s.stored.None? then 0 else LeaseEpoch(s.stored.value.lease)
  }

  /** The `k`th value after `e` in the 64-bit epochs, which start again from zero. */
  ghost function EpochAfter(e: nat, k: nat): nat {
    (e + k) % EPOCHS
  }

  /**
   Acquires count on from `first`, the stored epoch is that of the last one, and
   every record carries the epoch of an acquire of its own holder.
   */
  ghost predicate Fenced(first: nat, s: State) {
    && CountsOn(first, s.acquired)
    && StoredEpoch(s) == EpochAfter(first, |s.acquired|)
    && (s.replies != {} ==> s.acquired != [])
    && (s.acquired != [] ==>
          && s.stored.Some?
          && var last := s.acquired[|s.acquired| - 1];
             s.stored.value.lease.holder == last.0 || s.stored.value.lease.holder == "")
    && (forall r :: r in s.replies ==> (r.0, r.1.epoch) in s.acquired)
  }

  lemma EpochOn(e: nat, k: nat)
    ensures EpochAfter(e, k + 1) == if EpochAfter(e, k) + 1 == EPOCHS then 0 else EpochAfter(e, k) + 1
  {
  }

  /** Renew and release leave the stored epoch alone; an acquire moves it on by one. */
  lemma ServeEpoch(s: State, m: Message, s': State)
    requires Inv(s) && Next(s, Serve(m), s')
    ensures StoredEpoch(s') == if m.op.AcquireOp? && Accepts(s, m) then NextEpoch(StoredEpoch(s)) else StoredEpoch(s)
  {
    assert SentOk(s, m);
  }

  lemma ServeFences(first: nat, s: State, m: Message, s': State)
    requires m.from in s.procs && m.from != "" && SentOk(s, m) && Fenced(first, s) && Accepts(s, m) && s' == Served(s, m)
    requires StoredEpoch(s') == if m.op.AcquireOp? then NextEpoch(StoredEpoch(s)) else StoredEpoch(s)
    ensures Fenced(first, s')
  {
    EpochOn(first, |s.acquired|);
    forall r | r in s'.replies ensures (r.0, r.1.epoch) in s'.acquired {
      if r in s.replies {
        assert (r.0, r.1.epoch) in s.acquired;
      } else {
        assert (r.0, r.1.epoch) == s'.acquired[|s'.acquired| - 1];
      }
    }
  }

  lemma StepFences(first: nat, s: State, step: Step, s': State)
    requires Inv(s) && Fenced(first, s) && Next(s, step, s')
    ensures Fenced(first, s')
  {
    if step.Serve? {
      ServeEpoch(s, step.m, s');
      if Accepts(s, step.m) {
        ServeFences(first, s, step.m, s');
      }
    } else {
      assert s'.stored == s.stored && s'.replies == s.replies && s'.acquired == s.acquired;
    }
  }

  /** The same over every run. */
  lemma {:induction false} RunFences(states: seq<State>, steps: seq<Step>, n: nat)
    requires IsRun(states, steps) && Init(states[0]) && n < |states|
    ensures Fenced(StoredEpoch(states[0]), states[n])
  {
    if n > 0 {
      RunFences(states, steps, n - 1);
      RunKeeps(states, steps, n - 1);
      StepFences(StoredEpoch(states[0]), states[n - 1], steps[n - 1], states[n]);
    }
  }

  ghost predicate Growing(acquired: seq<(string, Epoch)>) {
    forall i, j :: 0 <= i < j < |acquired| ==> acquired[i].1 < acquired[j].1
  }

  ghost predicate CountsOn(first: nat, acquired: seq<(string, Epoch)>) {
    forall i :: 0 <= i < |acquired| ==> acquired[i].1 == EpochAfter(first, i + 1)
  }

  /**
   Over every run the acquires get larger and larger epochs if and only if, counted
   on from the first, they do not run past the last 64-bit one.
   */
  lemma AcquiresGrow(states: seq<State>, steps: seq<Step>)
    requires IsRun(states, steps) && Init(states[0])
    ensures var acquired := states[|steps|].acquired;
            Growing(acquired) <==> EpochAfter(StoredEpoch(states[0]), 1) + |acquired| <= EPOCHS
  {
    RunFences(states, steps, |steps|);
    GrowingIff(StoredEpoch(states[0]), states[|steps|].acquired);
  }

  lemma GrowingIff(first: nat, acquired: seq<(string, Epoch)>)
    requires first < EPOCHS && CountsOn(first, acquired)
    ensures Growing(acquired) <==> EpochAfter(first, 1) + |acquired| <= EPOCHS
  {
    var start := EpochAfter(first, 1);
    if start + |acquired| <= EPOCHS {
      forall i, j | 0 <= i < j < |acquired| ensures acquired[i].1 < acquired[j].1 {
        CountOn(first, i);
        CountOn(first, j);
      }
    } else {
      var k := EPOCHS - start;
      CountOn(first, k - 1);
      EpochOn(first, k);
      assert acquired[k - 1].1 == EPOCHS - 1 && acquired[k].1 == 0;
    }
  }

  lemma CountOn(first: nat, i: nat)
    requires first < EPOCHS && EpochAfter(first, 1) + i < EPOCHS
    ensures EpochAfter(first, i + 1) == EpochAfter(first, 1) + i
  {
    if first + 1 == EPOCHS {
      assert EpochAfter(first, i + 1) == (EPOCHS + i) % EPOCHS == i;
    }
  }

  /** Two acquires share an epoch exactly when a multiple of 2^64 lies between them. */
  lemma SameEpoch(first: nat, i: nat, j: nat)
    ensures EpochAfter(first, i) == EpochAfter(first, j) <==> (j - i) % EPOCHS == 0
  {
    var x, y := first + i, first + j;
    assert x == EPOCHS * (x / EPOCHS) + x % EPOCHS && y == EPOCHS * (y / EPOCHS) + y % EPOCHS;
    assert j - i == y - x == EPOCHS * (y / EPOCHS - x / EPOCHS) + (y % EPOCHS - x % EPOCHS);
  }

  ghost predicate DistinctEpochs(acquired: seq<(string, Epoch)>) {
    forall i, j :: 0 <= i < j < |acquired| ==> acquired[i].1 != acquired[j].1
  }

  /** No epoch is given out twice if and only if there are no more than 2^64 acquires. */
  lemma EpochsDistinctIff(first: nat, acquired: seq<(string, Epoch)>)
    requires CountsOn(first, acquired)
    ensures DistinctEpochs(acquired) <==> |acquired| <= EPOCHS
  {
    if |acquired| <= EPOCHS {
      forall i, j | 0 <= i < j < |acquired| ensures acquired[i].1 != acquired[j].1 {
        SameEpoch(first, i + 1, j + 1);
      }
    } else {
      SameEpoch(first, 1, EPOCHS + 1);
      assert acquired[0].1 == acquired[EPOCHS].1;
    }
  }

  /** An epoch is a fencing token: as long as none is given out twice, two processes are never told the same one. */
  lemma EpochNamesHolder(states: seq<State>, steps: seq<Step>, p: string, a: Record, q: string, b: Record)
    requires IsRun(states, steps) && Init(states[0])
    requires (p, a) in states[|steps|].replies && (q, b) in states[|steps|].replies && a.epoch == b.epoch
    ensures DistinctEpochs(states[|steps|].acquired) <==> |states[|steps|].acquired| <= EPOCHS
    ensures |states[|steps|].acquired| <= EPOCHS ==> p == q
  {
    RunFences(states, steps, |steps|);
    var s := states[|steps|];
    EpochsDistinctIff(StoredEpoch(states[0]), s.acquired);
    assert ((p, a).0, (p, a).1.epoch) in s.acquired && ((q, b).0, (q, b).1.epoch) in s.acquired;
    var i :| 0 <= i < |s.acquired| && s.acquired[i] == (p, a.epoch);
    var j :| 0 <= j < |s.acquired| && s.acquired[j] == (q, b.epoch);
  }

  /** One acquire raises the epoch unless it was the last 64-bit value, and then starts again from zero. */
  lemma EpochGrowsIff(l: Lease, p: string, now: int, ttl: int)
    ensures var epoch := LeaseEpoch(Updated(l, p, now, ttl, NextEpoch(LeaseEpoch(l))));
            && (epoch > LeaseEpoch(l) <==> LeaseEpoch(l) != EPOCHS - 1)
            && (LeaseEpoch(l) == EPOCHS - 1 ==> epoch == 0)
  {
  }

  /** The transition count stands in for a lost annotation exactly as long as the epoch fits in 31 bits. */
  lemma EpochSurvivesIff(l: Lease, p: string, now: int, ttl: int, epoch: Epoch)
    requires p != ""
    ensures LeaseEpoch(Updated(l, p, now, ttl, epoch)) == epoch
    ensures LeaseEpoch(Updated(l, p, now, ttl, epoch).(annotation := None)) == epoch <==> epoch < 0x8000_0000
  {
  }

  // ---- the code ---------------------------------------------------------------------------------

  /** The lease object a process reads into and edits in place. */
  class LeaseObject {
    var holder: string
    var seconds: Option<int>
    var acquired: Option<int>
    var renewed: Option<int>
    var annotation: Option<Epoch>
    var transitions: Option<int>

    function Value(): Lease
      reads this
    {
      Lease(holder, seconds, acquired, renewed, annotation, transitions)
    }

    constructor (l: Lease)
      ensures Value() == l
    {
      holder, seconds, acquired, renewed := l.holder, l.seconds, l.acquired, l.renewed;
      annotation, transitions := l.annotation, l.transitions;
    }

    /** `applyLeaseUpdate`: a release returns before the times and transitions are touched. */
    method ApplyUpdate(newHolder: string, now: int, ttl: int, epoch: Epoch)
      modifies this
      ensures Value() == Updated(old(Value()), newHolder, now, ttl, epoch)
      ensures newHolder == "" ==> Free(Value()) && acquired == old(acquired)
      ensures newHolder != "" ==> holder == newHolder && renewed == Some(now) && acquired.Some?
      ensures newHolder != "" && newHolder == old(holder) && old(acquired).Some? ==> acquired == old(acquired)
      ensures newHolder != "" && newHolder != old(holder) ==> acquired == Some(now)
      ensures annotation == Some(epoch)
    {
      var oldHolder := holder;
      annotation := Some(epoch);
      var s := Wrap32(WholeSeconds(ttl));
      if s <= 0 {
        s := DEFAULT_SECONDS;
      }
      holder := newHolder;
      seconds := Some(s);
      if newHolder == "" {
        renewed := None;
        return;
      }
      if acquired.None? || oldHolder != newHolder {
        acquired := Some(now);
      }
      renewed := Some(now);
      transitions := Some(Wrap32(epoch));
    }
  }

  /** What the API server answers to one round of get and write, and the clock in between. */
  datatype GetReply = GetError | NotFound | Found(stored: Stored)
  datatype PutReply = PutError | Conflict | Accepted
  datatype Round = Round(get: GetReply, now: int, put: PutReply)

  ghost function Seen(get: GetReply): Option<Stored> {
    if get.Found? then Some(get.stored) else None
  }

  /** One round of `Acquire`: the request to send, unless the read failed or another holds the lease. */
  method AcquireRound(p: string, ttl: int, round: Round) returns (m: Option<Message>)
    ensures m == if round.get.GetError? then None else AcquireRequest(p, Seen(round.get), round.now, ttl)
  {
    match round.get {
      case GetError =>
        return None;
      case NotFound =>
        var lease := new LeaseObject(Lease("", None, None, None, None, None));
        lease.ApplyUpdate(p, round.now, ttl, 1);
        return Some(Message(AcquireOp, p, None, lease.Value(), round.now));
      case Found(stored) =>
        if ActiveHeldByOther(stored.lease, p, round.now, ttl) {
          return None;
        }
        var lease := new LeaseObject(stored.lease);
        lease.ApplyUpdate(p, round.now, ttl, NextEpoch(LeaseEpoch(stored.lease)));
        return Some(Message(AcquireOp, p, Some(stored.rv), lease.Value(), round.now));
    }
  }

  /** One round of `Renew`. */
  method RenewRound(p: string, ttl: int, round: Round) returns (m: Option<Message>)
    ensures m == if !round.get.Found? then None else RenewRequest(p, round.get.stored, round.now, ttl)
    ensures m.Some? ==> LeaseEpoch(m.value.body) == LeaseEpoch(round.get.stored.lease)
  {
    if !round.get.Found? || round.get.stored.lease.holder != p {
      return None;
    }
    var stored := round.get.stored;
    var lease := new LeaseObject(stored.lease);
    lease.ApplyUpdate(p, round.now, ttl, LeaseEpoch(stored.lease));
    return Some(Message(RenewOp, p, Some(stored.rv), lease.Value(), round.now));
  }

  /** What a round sends: `Acquire` or `Renew`. */
  ghost function Request(op: Op, p: string, ttl: int, round: Round): Option<Message> {
    if op.AcquireOp? then if round.get.GetError? then None else AcquireRequest(p, Seen(round.get), round.now, ttl)
    else if !round.get.Found? then None else RenewRequest(p, round.get.stored, round.now, ttl)
  }

  /** Rounds before `n` all sent their request and met a conflict. */
  ghost predicate Conflicted(op: Op, p: string, ttl: int, rounds: seq<Round>, n: nat)
    requires n <= |rounds|
  {
    forall i :: 0 <= i < n ==> Request(op, p, ttl, rounds[i]).Some? && rounds[i].put.Conflict?
  }

  /**
   The retry loop of `Acquire` and `Renew`: up to three rounds, each with a fresh
   read, and only a conflict leads to another. `n` is the round that ended it.
   */
  method Attempt(op: Op, p: string, ttl: int, rounds: seq<Round>) returns (r: Result<Record>, n: nat)
    requires |rounds| == MAX_ATTEMPTS && !op.ReleaseOp?
    ensures n <= MAX_ATTEMPTS && Conflicted(op, p, ttl, rounds, n)
    ensures r.Ok? <==> n < MAX_ATTEMPTS && Request(op, p, ttl, rounds[n]).Some? && rounds[n].put.Accepted?
    ensures r.Ok? ==> var m := Request(op, p, ttl, rounds[n]).value; r.value == RecordFromLease(m.body, m.now, ttl)
    ensures n < MAX_ATTEMPTS ==> Request(op, p, ttl, rounds[n]).None? || !rounds[n].put.Conflict?
  {
    n := 0;
    while n < MAX_ATTEMPTS
      invariant n <= MAX_ATTEMPTS && Conflicted(op, p, ttl, rounds, n)
    {
      var m;
      if op.AcquireOp? {
        m := AcquireRound(p, ttl, rounds[n]);
      } else {
        m := RenewRound(p, ttl, rounds[n]);
      }
      if m.None? {
        return Err("get failed, or lease held"), n;
      }
      if rounds[n].put.PutError? {
        return Err("write failed"), n;
      }
      if rounds[n].put.Accepted? {
        return Ok(RecordFromLease(m.value.body, m.value.now, ttl)), n;
      }
      n := n + 1;
    }
    return Err("conflicted after retries"), n;
  }

  /** `Release`: one round, and nothing to do when the lease is gone or someone else's. */
  method Release(p: string, ttl: int, round: Round) returns (ok: bool, m: Option<Message>)
    ensures m == if !round.get.Found? then None else ReleaseRequest(p, round.get.stored, round.now, ttl)
    ensures m.Some? <==> round.get.Found? && round.get.stored.lease.holder == p
    ensures m.Some? ==> Free(m.value.body) && m.value.rv == Some(round.get.stored.rv)
    ensures m.Some? ==> LeaseEpoch(m.value.body) == LeaseEpoch(round.get.stored.lease)
    ensures ok <==> !round.get.GetError? && (m.None? || round.put.Accepted?)
  {
    if round.get.GetError? {
      return false, None;
    }
    if round.get.NotFound? || round.get.stored.lease.holder != p {
      return true, None;
    }
    var stored := round.get.stored;
    var lease := new LeaseObject(stored.lease);
    lease.ApplyUpdate("", round.now, ttl, LeaseEpoch(stored.lease));
    return round.put.Accepted?, Some(Message(ReleaseOp, p, Some(stored.rv), lease.Value(), round.now));
  }
}
