/**
 The apply loop: concurrent Replicate calls are merged into shared raft entries,
 and each caller gets its own answer.
 */
module Coalescer {
  import opened Wrappers
  import opened Payload

  const MERGE_BATCH := 128
  const QUEUE_BUFFER := 1024

  // ---- batches and the state machine ---------------------------------------------------

  datatype Op = Set(key: Bytes, value: Bytes) | Remove(key: Bytes)

  type Store = map<Bytes, Bytes>

  function ApplyOp(store: Store, op: Op): Store {
    if op.Set? then store[op.key := op.value] else store - {op.key}
  }

  function ApplyOps(store: Store, ops: seq<Op>): Store {
    if ops == [] then store else ApplyOp(ApplyOps(store, ops[..|ops| - 1]), ops[|ops| - 1])
  }

  lemma {:induction false} ApplyConcat(store: Store, a: seq<Op>, b: seq<Op>)
    ensures ApplyOps(store, a + b) == ApplyOps(ApplyOps(store, a), b)
  {
    if b == [] {
      assert a + b == a;
    } else {
      ApplyConcat(store, a, b[..|b| - 1]);
      assert (a + b)[..|a + b| - 1] == a + b[..|b| - 1];
    }
  }

  /** Batch representations: how one is read, and how one is appended to another. */
  datatype Codec = Codec(snappy: Snappy, parse: Bytes -> Option<seq<Op>>, merge: (Bytes, Bytes) -> Bytes)
  {
    ghost predicate Lawful() {
      && snappy.Lawful()
      && (forall a :: parse(a).Some? ==> a != [] && !HasPrefix(a, MAGIC))
      && (forall a, b {:trigger merge(a, b)} :: parse(a).Some? && parse(b).Some? ==>
            parse(merge(a, b)) == Some(parse(a).value + parse(b).value))
    }
  }

  /** `fsm.Apply` on one entry: an empty or unreadable payload changes nothing. */
  function FsmApply(codec: Codec, store: Store, data: Bytes): Store {
    if data == [] then store
    else
      var repr := Decode(codec.snappy, data);
      if repr.Some? && codec.parse(repr.value).Some? then ApplyOps(store, codec.parse(repr.value).value) else store
  }

  function Replay(codec: Codec, store: Store, log: seq<Bytes>): Store {
    if log == [] then store else FsmApply(codec, Replay(codec, store, log[..|log| - 1]), log[|log| - 1])
  }

  // ---- the loop as a step system -----------------------------------------------------------

  /** A Replicate call; ids count calls in the order the channel took them. */
  datatype Req = Req(id: nat, repr: Bytes)

  datatype Answer = Answer(id: nat, ok: bool)

  datatype Loop =
    | Idle
    | Draining(reqs: seq<Req>, merged: Bytes)
    | Submitting(reqs: seq<Req>, merged: Bytes)
    | Closing
    | Exited

  datatype State = State(
    queue: seq<Req>, stopping: bool, loop: Loop, answers: seq<Answer>,
    taken: seq<Req>, log: seq<Bytes>, entries: seq<seq<Req>>)

  datatype Step =
    | Enqueue(repr: Bytes)
    | Stop
    | TakeFirst
    | TakeMore(mergeOk: bool)
    | EndDrain
    | NotLeader
    | Commit(data: Bytes, fsmOk: bool)
    | Fail(data: Bytes, logged: bool)
    | BeginClose
    | CloseNext

  function AnswersFor(reqs: seq<Req>, ok: bool): seq<Answer> {
    seq(|reqs|, i requires 0 <= i < |reqs| => Answer(reqs[i].id, ok))
  }

  ghost predicate Next(codec: Codec, s: State, step: Step, s': State) {
    match step
    case Enqueue(repr) =>
      && repr != [] && |s.queue| < QUEUE_BUFFER
      && s' == s.(queue := s.queue + [Req(|s.taken| + |s.queue|, repr)])
    case Stop => s' == s.(stopping := true)
    case TakeFirst =>
      && s.loop.Idle? && s.queue != []
      && var first := s.queue[0];
         var t := s.(queue := s.queue[1..], taken := s.taken + [first]);
         s' == if codec.parse(first.repr).None? then t.(answers := t.answers + [Answer(first.id, false)])
               else t.(loop := Draining([first], first.repr))
    case TakeMore(mergeOk) =>
      && s.loop.Draining? && |s.loop.reqs| < MERGE_BATCH && s.queue != []
      && var more := s.queue[0];
         var t := s.(queue := s.queue[1..], taken := s.taken + [more]);
         s' == if codec.parse(more.repr).None? || !mergeOk
               then t.(answers := t.answers + [Answer(more.id, false)], loop := Submitting(s.loop.reqs, s.loop.merged))
               else t.(loop := Draining(s.loop.reqs + [more], codec.merge(s.loop.merged, more.repr)))
    case EndDrain =>
      && s.loop.Draining? && (s.queue == [] || |s.loop.reqs| == MERGE_BATCH)
      && s' == s.(loop := Submitting(s.loop.reqs, s.loop.merged))
    case NotLeader =>
      && s.loop.Submitting?
      && s' == s.(loop := Idle, answers := s.answers + AnswersFor(s.loop.reqs, false))
    case Commit(data, fsmOk) =>
      && s.loop.Submitting? && EncodedAs(codec.snappy, s.loop.merged, data)
      && s' == s.(loop := Idle, log := s.log + [data], entries := s.entries + [s.loop.reqs],
                  answers := s.answers + AnswersFor(s.loop.reqs, fsmOk))
    case Fail(data, logged) =>
      // an error from raft leaves it open whether the entry will be in the log
      && s.loop.Submitting? && EncodedAs(codec.snappy, s.loop.merged, data)
      && s' == s.(loop := Idle, answers := s.answers + AnswersFor(s.loop.reqs, false),
                  log := if logged then s.log + [data] else s.log,
                  entries := if logged then s.entries + [s.loop.reqs] else s.entries)
    case BeginClose => s.loop.Idle? && s.stopping && s' == s.(loop := Closing)
    case CloseNext =>
      && s.loop.Closing?
      && s' == if s.queue == [] then s.(loop := Exited)
               else s.(queue := s.queue[1..], taken := s.taken + [s.queue[0]],
                       answers := s.answers + [Answer(s.queue[0].id, false)])
  }

  ghost predicate Init(s: State) {
    s.queue == [] && s.loop.Idle? && s.answers == [] && s.taken == [] && s.log == [] && s.entries == []
  }

  // ---- what every step keeps -----------------------------------------------------------------

  ghost function Held(s: State): seq<Req> {
    if s.loop.Draining? || s.loop.Submitting? then s.loop.reqs else []
  }

  /** How often the call was answered. */
  ghost function Answered(answers: seq<Answer>, id: nat): nat {
    if answers == [] then 0
    else Answered(answers[..|answers| - 1], id) + if answers[|answers| - 1].id == id then 1 else 0
  }

  ghost predicate Has(reqs: seq<Req>, id: nat) {
    exists i :: 0 <= i < |reqs| && reqs[i].id == id
  }

  /** The calls in the log, entry after entry. */
  ghost function Shipped(entries: seq<seq<Req>>): seq<Req> {
    if entries == [] then [] else Shipped(entries[..|entries| - 1]) + entries[|entries| - 1]
  }

  ghost predicate InOrder(reqs: seq<Req>) {
    forall i, j :: 0 <= i < j < |reqs| ==> reqs[i].id < reqs[j].id
  }

  ghost predicate AllParse(codec: Codec, reqs: seq<Req>) {
    forall i :: 0 <= i < |reqs| ==> codec.parse(reqs[i].repr).Some?
  }

  /** The operations of the calls, one call after the other. */
  ghost function OpsOf(codec: Codec, reqs: seq<Req>): seq<Op> {
    if reqs == [] then []
    else
      var ops := codec.parse(reqs[|reqs| - 1].repr);
      OpsOf(codec, reqs[..|reqs| - 1]) + if ops.Some? then ops.value else []
  }

  lemma OpsSnoc(codec: Codec, a: seq<Req>, more: Req)
    ensures OpsOf(codec, a + [more])
         == OpsOf(codec, a) + if codec.parse(more.repr).Some? then codec.parse(more.repr).value else []
  {
    assert (a + [more])[..|a|] == a;
  }

  lemma OpsOne(codec: Codec, req: Req)
    requires codec.parse(req.repr).Some?
    ensures OpsOf(codec, [req]) == codec.parse(req.repr).value
  {
    OpsSnoc(codec, [], req);
    assert [] + [req] == [req];
  }

  lemma {:induction false} OpsConcat(codec: Codec, a: seq<Req>, b: seq<Req>)
    ensures OpsOf(codec, a + b) == OpsOf(codec, a) + OpsOf(codec, b)
  {
    if b == [] {
      assert a + b == a;
    } else {
      var most, last := b[..|b| - 1], b[|b| - 1];
      OpsConcat(codec, a, most);
      OpsSnoc(codec, a + most, last);
      assert (a + most) + [last] == a + b;
    }
  }

  /** Every entry reads back as the operations of its calls. */
  ghost predicate Readable(codec: Codec, log: seq<Bytes>, entries: seq<seq<Req>>) {
    && |log| == |entries|
    && forall i :: 0 <= i < |log| ==> ReadsAs(codec, log[i], OpsOf(codec, entries[i]))
  }

  ghost predicate ReadsAs(codec: Codec, data: Bytes, ops: seq<Op>) {
    data != [] && Decode(codec.snappy, data).Some? && codec.parse(Decode(codec.snappy, data).value) == Some(ops)
  }

  /** Calls are numbered as they arrive, and the channel is first in, first out. */
  ghost predicate Numbered(s: State) {
    && (forall i :: 0 <= i < |s.taken| ==> s.taken[i].id == i)
    && (forall i :: 0 <= i < |s.queue| ==> s.queue[i].id == |s.taken| + i)
  }

  ghost predicate AnsweredOnce(s: State) {
    forall id: nat :: Answered(s.answers, id) == if id < |s.taken| && !Has(Held(s), id) then 1 else 0
  }

  ghost predicate OkIsShipped(s: State) {
    forall i :: 0 <= i < |s.answers| && s.answers[i].ok ==> Has(Shipped(s.entries), s.answers[i].id)
  }

  /** Shipped and held calls are in the order they were taken, and none is yet to be taken. */
  ghost predicate Ordered(s: State) {
    OrderedIn(Shipped(s.entries), Held(s), |s.taken|)
  }

  ghost predicate OrderedIn(shipped: seq<Req>, held: seq<Req>, taken: nat) {
    && InOrder(shipped) && InOrder(held)
    && (forall i, j :: 0 <= i < |shipped| && 0 <= j < |held| ==> shipped[i].id < held[j].id)
    && (forall i :: 0 <= i < |shipped| ==> shipped[i].id < taken)
    && (forall i :: 0 <= i < |held| ==> held[i].id < taken)
  }

  ghost predicate HeldReads(codec: Codec, s: State) {
    s.loop.Draining? || s.loop.Submitting? ==>
      s.loop.reqs != [] && codec.parse(s.loop.merged) == Some(OpsOf(codec, s.loop.reqs))
  }

  ghost predicate Inv(codec: Codec, s: State) {
    && Numbered(s) && AnsweredOnce(s) && OkIsShipped(s) && Ordered(s)
    && HeldReads(codec, s) && Readable(codec, s.log, s.entries)
  }

  lemma NumberedStep(codec: Codec, s: State, step: Step, s': State)
    requires Numbered(s) && Next(codec, s, step, s')
    ensures Numbered(s')
  {
  }

  lemma AnsweredSnoc(answers: seq<Answer>, a: Answer, id: nat)
    ensures Answered(answers + [a], id) == Answered(answers, id) + if a.id == id then 1 else 0
  {
    assert (answers + [a])[..|answers|] == answers;
  }

  lemma {:induction false} AnsweredMore(answers: seq<Answer>, reqs: seq<Req>, ok: bool, id: nat)
    requires InOrder(reqs)
    ensures Answered(answers + AnswersFor(reqs, ok), id) == Answered(answers, id) + if Has(reqs, id) then 1 else 0
  {
    if reqs == [] {
      assert answers + AnswersFor(reqs, ok) == answers;
    } else {
      var most, last := reqs[..|reqs| - 1], reqs[|reqs| - 1];
      AnsweredMore(answers, most, ok, id);
      AnsweredSnoc(answers + AnswersFor(most, ok), Answer(last.id, ok), id);
      assert answers + AnswersFor(reqs, ok) == answers + AnswersFor(most, ok) + [Answer(last.id, ok)];
      assert reqs == most + [last];
      HasSnoc(most, last, id);
      if Has(most, id) {
        var i :| 0 <= i < |most| && most[i].id == id;
        assert reqs[i].id < last.id;
      }
    }
  }

  lemma HasSnoc(reqs: seq<Req>, more: Req, id: nat)
    ensures Has(reqs + [more], id) <==> Has(reqs, id) || more.id == id
  {
    if Has(reqs, id) {
      var i :| 0 <= i < |reqs| && reqs[i].id == id;
      assert (reqs + [more])[i].id == id;
    }
    if more.id == id {
      assert (reqs + [more])[|reqs|].id == id;
    }
    if Has(reqs + [more], id) {
      var i :| 0 <= i < |reqs| + 1 && (reqs + [more])[i].id == id;
      assert i == |reqs| || reqs[i].id == id;
    }
  }

  /** Taking a call and answering it at once, or holding it, keeps the account. */
  lemma TakeAnswered(codec: Codec, s: State, step: Step, s': State)
    requires Numbered(s) && AnsweredOnce(s) && Ordered(s) && Next(codec, s, step, s')
    requires step.TakeFirst? || step.TakeMore? || step.CloseNext?
    ensures AnsweredOnce(s')
  {
    if s.queue == [] {
      assert s'.answers == s.answers && s'.taken == s.taken && Held(s') == Held(s);
    } else if s'.answers == s.answers {
      assert Held(s') == Held(s) + [s.queue[0]];
      forall id: nat ensures Answered(s'.answers, id) == if id < |s'.taken| && !Has(Held(s'), id) then 1 else 0 {
        HasSnoc(Held(s), s.queue[0], id);
      }
    } else {
      assert s'.answers == s.answers + [Answer(|s.taken|, false)] && Held(s') == Held(s);
      assert s'.answers[..|s.answers|] == s.answers;
    }
  }

  lemma SubmitAnswered(codec: Codec, s: State, step: Step, s': State)
    requires AnsweredOnce(s) && Ordered(s) && Next(codec, s, step, s')
    requires step.NotLeader? || step.Commit? || step.Fail?
    ensures AnsweredOnce(s')
  {
    var ok := step.Commit? && step.fsmOk;
    forall id: nat ensures Answered(s'.answers, id) == if id < |s'.taken| && !Has(Held(s'), id) then 1 else 0 {
      AnsweredMore(s.answers, s.loop.reqs, ok, id);
    }
  }

  lemma ShippedSnoc(entries: seq<seq<Req>>, reqs: seq<Req>)
    ensures Shipped(entries + [reqs]) == Shipped(entries) + reqs
  {
    assert (entries + [reqs])[..|entries|] == entries;
  }

  lemma ShipHeld(shipped: seq<Req>, held: seq<Req>, taken: nat)
    requires OrderedIn(shipped, held, taken)
    ensures OrderedIn(shipped + held, [], taken) && OrderedIn(shipped, [], taken)
  {
  }

  lemma HoldMore(shipped: seq<Req>, held: seq<Req>, taken: nat, more: Req)
    requires OrderedIn(shipped, held, taken) && more.id == taken
    ensures OrderedIn(shipped, held + [more], taken + 1) && OrderedIn(shipped, held, taken + 1)
  {
  }

  lemma HoldFirst(shipped: seq<Req>, taken: nat, first: Req)
    requires OrderedIn(shipped, [], taken) && first.id == taken
    ensures OrderedIn(shipped, [first], taken + 1) && OrderedIn(shipped, [], taken + 1)
  {
  }

  lemma TakeFirstOrdered(codec: Codec, s: State, s': State)
    requires Numbered(s) && Ordered(s) && Next(codec, s, TakeFirst, s')
    ensures Ordered(s')
  {
    HoldFirst(Shipped(s.entries), |s.taken|, s.queue[0]);
  }

  lemma TakeMoreOrdered(codec: Codec, s: State, mergeOk: bool, s': State)
    requires Numbered(s) && Ordered(s) && Next(codec, s, TakeMore(mergeOk), s')
    ensures Ordered(s')
  {
    HoldMore(Shipped(s.entries), s.loop.reqs, |s.taken|, s.queue[0]);
  }

  lemma CloseOrdered(codec: Codec, s: State, s': State)
    requires Numbered(s) && Ordered(s) && Next(codec, s, CloseNext, s')
    ensures Ordered(s')
  {
    if s.queue != [] {
      HoldMore(Shipped(s.entries), [], |s.taken|, s.queue[0]);
    }
  }

  lemma SubmitOrdered(codec: Codec, s: State, step: Step, s': State)
    requires Ordered(s) && Next(codec, s, step, s') && (step.NotLeader? || step.Commit? || step.Fail?)
    ensures Ordered(s')
  {
    ShipHeld(Shipped(s.entries), Held(s), |s.taken|);
    ShippedSnoc(s.entries, Held(s));
    assert s'.entries == s.entries || s'.entries == s.entries + [Held(s)];
    assert Held(s') == [] && s'.taken == s.taken;
  }

  lemma OrderedStep(codec: Codec, s: State, step: Step, s': State)
    requires Numbered(s) && Ordered(s) && Next(codec, s, step, s')
    ensures Ordered(s')
  {
    match step
    case TakeFirst => TakeFirstOrdered(codec, s, s');
    case TakeMore(mergeOk) => TakeMoreOrdered(codec, s, mergeOk, s');
    case CloseNext => CloseOrdered(codec, s, s');
    case NotLeader => SubmitOrdered(codec, s, step, s');
    case Commit(_, _) => SubmitOrdered(codec, s, step, s');
    case Fail(_, _) => SubmitOrdered(codec, s, step, s');
    case _ => assert Held(s') == Held(s) && s'.entries == s.entries && s'.taken == s.taken;
  }

  lemma HasConcat(a: seq<Req>, b: seq<Req>, id: nat)
    requires Has(a, id) || Has(b, id)
    ensures Has(a + b, id)
  {
    if Has(a, id) {
      var i :| 0 <= i < |a| && a[i].id == id;
      assert (a + b)[i].id == id;
    } else {
      var i :| 0 <= i < |b| && b[i].id == id;
      assert (a + b)[|a| + i].id == id;
    }
  }

  lemma OkStep(codec: Codec, s: State, step: Step, s': State)
    requires OkIsShipped(s) && Next(codec, s, step, s')
    ensures OkIsShipped(s')
  {
    if s'.entries != s.entries {
      ShippedSnoc(s.entries, Held(s));
      forall i | 0 <= i < |s'.answers| && s'.answers[i].ok ensures Has(Shipped(s'.entries), s'.answers[i].id) {
        if i < |s.answers| {
          assert s'.answers[i] == s.answers[i];
        } else {
          assert s'.answers[i].id == Held(s)[i - |s.answers|].id;
        }
        HasConcat(Shipped(s.entries), Held(s), s'.answers[i].id);
      }
    }
  }

  lemma ReadStep(codec: Codec, s: State, step: Step, s': State)
    requires codec.Lawful() && HeldReads(codec, s) && Readable(codec, s.log, s.entries) && Next(codec, s, step, s')
    ensures HeldReads(codec, s') && Readable(codec, s'.log, s'.entries)
  {
    if s'.log != s.log {
      RoundTrip(codec.snappy, s.loop.merged, step.data);
      assert ReadsAs(codec, step.data, OpsOf(codec, s.loop.reqs));
    } else if s'.loop.Draining? && s'.loop != s.loop {
      var more := s.queue[0];
      if step.TakeMore? {
        assert (s.loop.reqs + [more])[..|s.loop.reqs|] == s.loop.reqs;
      } else {
        OpsOne(codec, more);
      }
    }
  }

  lemma StepKeeps(codec: Codec, s: State, step: Step, s': State)
    requires codec.Lawful() && Inv(codec, s) && Next(codec, s, step, s')
    ensures Inv(codec, s')
  {
    NumberedStep(codec, s, step, s');
    OrderedStep(codec, s, step, s');
    OkStep(codec, s, step, s');
    ReadStep(codec, s, step, s');
    match step
    case TakeFirst => TakeAnswered(codec, s, step, s');
    case TakeMore(_) => TakeAnswered(codec, s, step, s');
    case CloseNext => TakeAnswered(codec, s, step, s');
    case NotLeader => SubmitAnswered(codec, s, step, s');
    case Commit(_, _) => SubmitAnswered(codec, s, step, s');
    case Fail(_, _) => SubmitAnswered(codec, s, step, s');
    case _ => assert s'.answers == s.answers && s'.taken == s.taken && Held(s') == Held(s);
  }

  // ---- runs ------------------------------------------------------------------------------------

  ghost predicate IsRun(codec: Codec, states: seq<State>, steps: seq<Step>) {
    && |states| == |steps| + 1 && Init(states[0])
    && forall n :: 0 <= n < |steps| ==> Next(codec, states[n], steps[n], states[n + 1])
  }

  lemma {:induction false} RunKeeps(codec: Codec, states: seq<State>, steps: seq<Step>, n: nat)
    requires codec.Lawful() && IsRun(codec, states, steps) && n < |states|
    ensures Inv(codec, states[n])
  {
    if n > 0 {
      RunKeeps(codec, states, steps, n - 1);
      StepKeeps(codec, states[n - 1], steps[n - 1], states[n]);
    }
  }

  /** Between two rounds every call taken from the channel has been answered exactly once, and no other. */
  lemma EveryCallAnsweredOnce(codec: Codec, states: seq<State>, steps: seq<Step>, n: nat, id: nat)
    requires codec.Lawful() && IsRun(codec, states, steps) && n < |states|
    ensures Answered(states[n].answers, id) <= 1
    ensures Held(states[n]) == [] ==> Answered(states[n].answers, id) == if id < |states[n].taken| then 1 else 0
  {
    RunKeeps(codec, states, steps, n);
  }

  /** A nil answer means the call is in the log, in one place. */
  lemma NilMeansLoggedOnce(codec: Codec, states: seq<State>, steps: seq<Step>, n: nat, k: nat)
    requires codec.Lawful() && IsRun(codec, states, steps) && n < |states|
    requires k < |states[n].answers| && states[n].answers[k].ok
    ensures var id, shipped := states[n].answers[k].id, Shipped(states[n].entries);
            && Has(shipped, id)
            && (forall i, j :: 0 <= i < |shipped| && 0 <= j < |shipped| && shipped[i].id == id && shipped[j].id == id ==> i == j)
  {
    RunKeeps(codec, states, steps, n);
    assert Has(Shipped(states[n].entries), states[n].answers[k].id);
  }

  // ---- which calls succeed ------------------------------------------------------------------------

  /** The calls are ones that were taken from the channel, unchanged. */
  ghost predicate Genuine(reqs: seq<Req>, taken: seq<Req>) {
    forall i :: 0 <= i < |reqs| ==> reqs[i].id < |taken| && taken[reqs[i].id] == reqs[i]
  }

  ghost predicate Traced(codec: Codec, s: State) {
    Genuine(Held(s), s.taken) && Genuine(Shipped(s.entries), s.taken) && AllParse(codec, Held(s))
  }

  lemma GenuineLater(reqs: seq<Req>, taken: seq<Req>, more: seq<Req>)
    requires Genuine(reqs, taken) && taken <= more
    ensures Genuine(reqs, more)
  {
  }

  lemma GenuineNext(taken: seq<Req>, next: Req)
    requires next.id == |taken|
    ensures Genuine([next], taken + [next])
  {
  }

  lemma GenuineJoin(a: seq<Req>, b: seq<Req>, taken: seq<Req>)
    requires Genuine(a, taken) && Genuine(b, taken)
    ensures Genuine(a + b, taken)
  {
  }

  /** Taking one more call. */
  lemma TracedTake(codec: Codec, s: State, step: Step, s': State)
    requires Numbered(s) && Traced(codec, s) && Next(codec, s, step, s') && (step.TakeFirst? || step.TakeMore?)
    ensures Traced(codec, s')
  {
    var next := s.queue[0];
    assert s'.taken == s.taken + [next] && s'.entries == s.entries;
    GenuineNext(s.taken, next);
    GenuineLater(Held(s), s.taken, s'.taken);
    GenuineLater(Shipped(s.entries), s.taken, s'.taken);
    GenuineJoin(Held(s), [next], s'.taken);
  }

  /** Shipping the calls in hand, or giving them up. */
  lemma TracedShip(codec: Codec, s: State, step: Step, s': State)
    requires Traced(codec, s) && Next(codec, s, step, s') && (step.Commit? || step.Fail? || step.NotLeader?)
    ensures Traced(codec, s')
  {
    ShippedSnoc(s.entries, Held(s));
    GenuineJoin(Shipped(s.entries), Held(s), s.taken);
  }

  lemma TracedStep(codec: Codec, s: State, step: Step, s': State)
    requires Numbered(s) && Traced(codec, s) && Next(codec, s, step, s')
    ensures Traced(codec, s')
  {
    if step.TakeFirst? || step.TakeMore? {
      TracedTake(codec, s, step, s');
    } else if step.Commit? || step.Fail? || step.NotLeader? {
      TracedShip(codec, s, step, s');
    } else {
      assert s.taken <= s'.taken && Held(s') == Held(s) && s'.entries == s.entries;
      GenuineLater(Held(s), s.taken, s'.taken);
      GenuineLater(Shipped(s.entries), s.taken, s'.taken);
    }
  }

  /** Raft, the state machine and the merge all work, and the node is not closing. */
  ghost predicate Smooth(step: Step) {
    && !step.NotLeader? && !step.Fail? && !step.BeginClose? && !step.CloseNext?
    && (step.Commit? ==> step.fsmOk) && (step.TakeMore? ==> step.mergeOk)
  }

  ghost predicate FairAnswer(codec: Codec, taken: seq<Req>, a: Answer) {
    a.id < |taken| && (a.ok <==> codec.parse(taken[a.id].repr).Some?)
  }

  ghost predicate Fair(codec: Codec, s: State) {
    forall i :: 0 <= i < |s.answers| ==> FairAnswer(codec, s.taken, s.answers[i])
  }

  lemma FairLater(codec: Codec, taken: seq<Req>, more: seq<Req>, a: Answer)
    requires FairAnswer(codec, taken, a) && taken <= more
    ensures FairAnswer(codec, more, a)
  {
  }

  lemma FairCommit(codec: Codec, s: State, step: Step, s': State)
    requires Traced(codec, s) && Fair(codec, s) && Next(codec, s, step, s') && step.Commit? && step.fsmOk
    ensures Fair(codec, s')
  {
    forall i | 0 <= i < |s'.answers| ensures FairAnswer(codec, s'.taken, s'.answers[i]) {
      if i < |s.answers| {
        assert s'.answers[i] == s.answers[i];
      } else {
        var r := Held(s)[i - |s.answers|];
        assert s'.answers[i] == Answer(r.id, true) && s.taken[r.id] == r;
      }
    }
  }

  lemma FairStep(codec: Codec, s: State, step: Step, s': State)
    requires Numbered(s) && Traced(codec, s) && Fair(codec, s) && Next(codec, s, step, s') && Smooth(step)
    ensures Fair(codec, s')
  {
    if step.Commit? {
      FairCommit(codec, s, step, s');
    } else {
      forall i | 0 <= i < |s'.answers| ensures FairAnswer(codec, s'.taken, s'.answers[i]) {
        if i < |s.answers| {
          FairLater(codec, s.taken, s'.taken, s.answers[i]);
        }
      }
    }
  }

  lemma RunNumbered(codec: Codec, states: seq<State>, steps: seq<Step>, n: nat)
    requires codec.Lawful() && IsRun(codec, states, steps) && n < |states|
    ensures Numbered(states[n])
  {
    RunKeeps(codec, states, steps, n);
  }

  lemma {:induction false} RunTraced(codec: Codec, states: seq<State>, steps: seq<Step>, n: nat)
    requires codec.Lawful() && IsRun(codec, states, steps) && n < |states|
    ensures Traced(codec, states[n])
  {
    if n > 0 {
      RunTraced(codec, states, steps, n - 1);
      RunNumbered(codec, states, steps, n - 1);
      TracedStep(codec, states[n - 1], steps[n - 1], states[n]);
    }
  }

  ghost predicate SmoothTo(steps: seq<Step>, n: nat)
    requires n <= |steps|
  {
    forall i :: 0 <= i < n ==> Smooth(steps[i])
  }

  lemma {:induction false} RunFair(codec: Codec, states: seq<State>, steps: seq<Step>, n: nat)
    requires codec.Lawful() && IsRun(codec, states, steps) && n < |states| && SmoothTo(steps, n)
    ensures Fair(codec, states[n])
  {
    if n > 0 {
      RunFair(codec, states, steps, n - 1);
      RunNumbered(codec, states, steps, n - 1);
      RunTraced(codec, states, steps, n - 1);
      FairStep(codec, states[n - 1], steps[n - 1], states[n]);
    }
  }

  /** As long as nothing goes wrong, a call is answered with nil if and only if its batch can be read. */
  lemma ReadableCallsSucceed(codec: Codec, states: seq<State>, steps: seq<Step>, n: nat, k: nat)
    requires codec.Lawful() && IsRun(codec, states, steps) && n < |states| && k < |states[n].answers|
    requires SmoothTo(steps, n)
    ensures var a, taken := states[n].answers[k], states[n].taken;
            a.id < |taken| && (a.ok <==> codec.parse(taken[a.id].repr).Some?)
  {
    RunFair(codec, states, steps, n);
    assert FairAnswer(codec, states[n].taken, states[n].answers[k]);
  }

  lemma {:induction false} ReplayIsShipped(codec: Codec, store: Store, log: seq<Bytes>, entries: seq<seq<Req>>)
    requires Readable(codec, log, entries)
    ensures Replay(codec, store, log) == ApplyOps(store, OpsOf(codec, Shipped(entries)))
  {
    if log != [] {
      var n := |log| - 1;
      ReplayIsShipped(codec, store, log[..n], entries[..n]);
      assert ReadsAs(codec, log[n], OpsOf(codec, entries[n]));
      OpsConcat(codec, Shipped(entries[..n]), entries[n]);
      ApplyConcat(store, OpsOf(codec, Shipped(entries[..n])), OpsOf(codec, entries[n]));
    }
  }

  /**
   Replaying the log gives what applying the logged calls one by one gives, in
   the order they were taken from the channel.
   */
  lemma ReplayIsOneByOne(codec: Codec, states: seq<State>, steps: seq<Step>, n: nat, store: Store)
    requires codec.Lawful() && IsRun(codec, states, steps) && n < |states|
    ensures var s := states[n];
            && Replay(codec, store, s.log) == ApplyOps(store, OpsOf(codec, Shipped(s.entries)))
            && InOrder(Shipped(s.entries)) && Genuine(Shipped(s.entries), s.taken)
            && forall i :: 0 <= i < |Shipped(s.entries)| ==> Shipped(s.entries)[i].id < |s.taken|
  {
    RunKeeps(codec, states, steps, n);
    RunTraced(codec, states, steps, n);
    ReplayIsShipped(codec, store, states[n].log, states[n].entries);
  }

  // ---- after the loop has exited ------------------------------------------------------------------

  /** How many calls the channel has taken so far; the next one gets this number. */
  ghost function Calls(s: State): nat {
    |s.taken| + |s.queue|
  }

  /** An exited loop answers nothing and takes nothing, but the channel still has room. */
  lemma ExitIsFinal(codec: Codec, s: State, step: Step, s': State)
    requires s.loop.Exited? && Next(codec, s, step, s')
    ensures s' == s.(queue := s'.queue, stopping := s'.stopping) && (step.Enqueue? || step.Stop?)
  {
  }

  /** The step at which the loop exited, with an empty channel; the state has not moved on since. */
  lemma {:induction false} ExitPoint(codec: Codec, states: seq<State>, steps: seq<Step>, n: nat) returns (m: nat)
    requires IsRun(codec, states, steps) && n < |states| && states[n].loop.Exited?
    ensures m < n && steps[m].CloseNext? && states[m].queue == [] && states[m + 1].loop.Exited?
    ensures forall k :: m < k < n ==> steps[k].Enqueue? || steps[k].Stop?
    ensures states[n].taken == states[m + 1].taken && states[n].answers == states[m + 1].answers
    ensures states[m + 1].queue == []
  {
    if n > 0 && states[n - 1].loop.Exited? {
      m := ExitPoint(codec, states, steps, n - 1);
      ExitIsFinal(codec, states[n - 1], steps[n - 1], states[n]);
    } else {
      assert Next(codec, states[n - 1], steps[n - 1], states[n]);
      m := n - 1;
    }
  }

  /** A number given out between two moments was given by an enqueue between them. */
  lemma {:induction false} NumberedBetween(codec: Codec, states: seq<State>, steps: seq<Step>, m: nat, n: nat, id: nat)
    requires IsRun(codec, states, steps) && m <= n < |states| && Calls(states[m]) <= id < Calls(states[n])
    ensures exists k :: m <= k < n && steps[k].Enqueue? && Calls(states[k]) == id
  {
    assert Next(codec, states[n - 1], steps[n - 1], states[n]);
    if id < Calls(states[n - 1]) {
      NumberedBetween(codec, states, steps, m, n - 1, id);
    } else {
      assert steps[n - 1].Enqueue? && Calls(states[n - 1]) == id;
    }
  }

  lemma {:induction false} CallsGrow(codec: Codec, states: seq<State>, steps: seq<Step>, m: nat, n: nat)
    requires IsRun(codec, states, steps) && m <= n < |states|
    ensures Calls(states[m]) <= Calls(states[n])
  {
    if m < n {
      CallsGrow(codec, states, steps, m, n - 1);
      assert Next(codec, states[n - 1], steps[n - 1], states[n]);
    }
  }

  /**
   Once the loop has exited, a call the channel took is unanswered, and stays so,
   if and only if it was enqueued after the loop's last look at the channel.
   */
  lemma StrandedIff(codec: Codec, states: seq<State>, steps: seq<Step>, n: nat, id: nat) returns (m: nat)
    requires codec.Lawful() && IsRun(codec, states, steps) && n < |states| && states[n].loop.Exited?
    requires id < Calls(states[n])
    ensures m < n && steps[m].CloseNext? && states[m + 1].loop.Exited?
    ensures forall k :: m < k < n ==> !steps[k].CloseNext?
    ensures Answered(states[n].answers, id) == 0 <==>
            exists k :: m < k < n && steps[k].Enqueue? && Calls(states[k]) == id
  {
    m := ExitPoint(codec, states, steps, n);
    EveryCallAnsweredOnce(codec, states, steps, n, id);
    if id >= Calls(states[m + 1]) {
      NumberedBetween(codec, states, steps, m + 1, n, id);
    } else {
      forall k | m < k < n && steps[k].Enqueue? ensures Calls(states[k]) != id {
        CallsGrow(codec, states, steps, m + 1, k);
      }
    }
  }

  /** Such a call exists: a Replicate that slips in after the loop was stopped and went. */
  lemma CallAfterExit(codec: Codec, repr: Bytes)
    requires repr != []
    ensures var s := State([], false, Idle, [], [], [], []);
            var stopped := s.(stopping := true);
            var exited := stopped.(loop := Exited);
            var late := exited.(queue := [Req(0, repr)]);
            && IsRun(codec, [s, stopped, stopped.(loop := Closing), exited, late], [Stop, BeginClose, CloseNext, Enqueue(repr)])
            && late.loop.Exited? && Answered(late.answers, 0) == 0
  {
    var s := State([], false, Idle, [], [], [], []);
    var stopped := s.(stopping := true);
    var exited := stopped.(loop := Exited);
    var late := exited.(queue := [Req(0, repr)]);
    assert [] + [Req(0, repr)] == [Req(0, repr)];
    assert Next(codec, s, Stop, stopped) && Next(codec, stopped, BeginClose, stopped.(loop := Closing));
    assert Next(codec, stopped.(loop := Closing), CloseNext, exited) && Next(codec, exited, Enqueue(repr), late);
  }

  // ---- one round of the loop ------------------------------------------------------------------------

  /**
   The drain: calls waiting behind `first` are merged until the channel is empty,
   the batch is full, or one cannot be read; that one alone is turned away.
   */
  method Drain(codec: Codec, first: Req, queue: seq<Req>)
      returns (reqs: seq<Req>, merged: Bytes, bad: Option<Req>, rest: seq<Req>)
    requires codec.Lawful() && codec.parse(first.repr).Some?
    ensures [first] + queue == reqs + (if bad.Some? then [bad.value] else []) + rest
    ensures 1 <= |reqs| <= MERGE_BATCH && AllParse(codec, reqs)
    ensures codec.parse(merged) == Some(OpsOf(codec, reqs))
    ensures bad.Some? ==> codec.parse(bad.value.repr).None?
    ensures bad.Some? || rest == [] || |reqs| == MERGE_BATCH
  {
    reqs, merged, bad, rest := [first], first.repr, None, queue;
    OpsOne(codec, first);
    while |reqs| < MERGE_BATCH && rest != []
      invariant [first] + queue == reqs + rest
      invariant 1 <= |reqs| <= MERGE_BATCH && AllParse(codec, reqs)
      invariant codec.parse(merged) == Some(OpsOf(codec, reqs))
      decreases |rest|
    {
      var more := rest[0];
      assert reqs + rest == reqs + [more] + rest[1..];
      rest := rest[1..];
      if codec.parse(more.repr).None? {
        bad := Some(more);
        return;
      }
      OpsSnoc(codec, reqs, more);
      merged := codec.merge(merged, more.repr);
      reqs := reqs + [more];
    }
  }
}
