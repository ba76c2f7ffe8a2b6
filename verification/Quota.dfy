/**
 Service-level admission: one bucket's in-flight counter under every
 interleaving of its atomic adds, the checks between them and the releases.
 */
module Quota {
  import opened Sets

  // ---- one request, alone ------------------------------------------------------------------

  datatype Verdict = Admitted | Paused | OverInFlight | OverRows | OverBytes

  /** A service level's bucket; a limit of zero or less means no limit. */
  class Bucket {
    const maxInFlight: int
    const paused: bool
    const limitsRows: bool
    const limitsBytes: bool
    var inFlight: int
    var observed: seq<Verdict>

    constructor (maxInFlight: int, paused: bool, limitsRows: bool, limitsBytes: bool)
      ensures inFlight == 0 && observed == []
      ensures this.maxInFlight == maxInFlight && this.paused == paused
      ensures this.limitsRows == limitsRows && this.limitsBytes == limitsBytes
    {
      this.maxInFlight, this.paused, this.limitsRows, this.limitsBytes := maxInFlight, paused, limitsRows, limitsBytes;
      inFlight, observed := 0, [];
    }

    /** Whether the in-flight cap lets one more in. */
    predicate Room(n: int)
      reads this
    {
      maxInFlight <= 0 || n < maxInFlight
    }

    /** `release`: gives the slot back, if there was one. */
    method Release()
      modifies this`inFlight
      ensures inFlight == old(inFlight) - if maxInFlight > 0 then 1 else 0
    {
      if maxInFlight > 0 {
        inFlight := inFlight - 1;
      }
    }

    /** `Begin`, with what the two rate limiters would answer. */
    method Begin(rowsAllow: bool, bytesAllow: bool) returns (v: Verdict)
      modifies this
      ensures v.Admitted? <==> !paused && Room(old(inFlight)) && (limitsRows ==> rowsAllow) && (limitsBytes ==> bytesAllow)
      ensures v.Paused? <==> paused
      ensures v.OverInFlight? <==> !paused && !Room(old(inFlight))
      ensures v.OverRows? <==> !paused && Room(old(inFlight)) && limitsRows && !rowsAllow
      ensures v.OverBytes? <==> !paused && Room(old(inFlight)) && (limitsRows ==> rowsAllow) && limitsBytes && !bytesAllow
      ensures inFlight == old(inFlight) + if v.Admitted? && maxInFlight > 0 then 1 else 0
      ensures observed == old(observed) + if v.Admitted? then [] else [v]
    {
      if paused {
        observed := observed + [Paused];
        return Paused;
      }
      if maxInFlight > 0 {
        inFlight := inFlight + 1;
        if inFlight > maxInFlight {
          inFlight := inFlight - 1;
          observed := observed + [OverInFlight];
          return OverInFlight;
        }
      }
      if limitsRows && !rowsAllow {
        Release();
        observed := observed + [OverRows];
        return OverRows;
      }
      if limitsBytes && !bytesAllow {
        Release();
        observed := observed + [OverBytes];
        return OverBytes;
      }
      return Admitted;
    }
  }

  // ---- many requests, interleaved ----------------------------------------------------------

  /**
   Where a request stands. `Over` has added itself and seen too high a count,
   `Limiting` has a slot and is asking the rate limiters, `Refused` was turned
   down by one of them; `Over` and `Refused` have yet to undo their add.
   */
  datatype Phase = Over | Limiting | Refused | Running | Rejected | Finished
  {
    /** The request's add has not been undone. */
    predicate Counted() {
      Over? || Limiting? || Refused? || Running?
    }

    /** The request was let in by the cap. */
    predicate Slotted() {
      Limiting? || Refused? || Running?
    }
  }

  datatype State = State(counter: int, reqs: map<nat, Phase>)

  datatype Step =
    | Add(r: nat)
    | Undo(r: nat)
    | Limit(r: nat, allow: bool)
    | GiveBack(r: nat)
    | Release(r: nat)

  ghost predicate Next(max: nat, s: State, step: Step, s': State) {
    match step
    case Add(r) =>
      && r !in s.reqs
      && s' == State(s.counter + 1, s.reqs[r := if s.counter + 1 > max then Over else Limiting])
    case Undo(r) => r in s.reqs && s.reqs[r].Over? && s' == State(s.counter - 1, s.reqs[r := Rejected])
    case Limit(r, allow) =>
      r in s.reqs && s.reqs[r].Limiting? && s' == s.(reqs := s.reqs[r := if allow then Running else Refused])
    case GiveBack(r) => r in s.reqs && s.reqs[r].Refused? && s' == State(s.counter - 1, s.reqs[r := Rejected])
    case Release(r) => r in s.reqs && s.reqs[r].Running? && s' == State(s.counter - 1, s.reqs[r := Finished])
  }

  ghost function Counted(s: State): set<nat> {
    set r | r in s.reqs && s.reqs[r].Counted()
  }

  ghost function Slotted(s: State): set<nat> {
    set r | r in s.reqs && s.reqs[r].Slotted()
  }

  ghost function InPhase(s: State, p: Phase): set<nat> {
    set r | r in s.reqs && s.reqs[r] == p
  }

  ghost predicate Inv(max: nat, s: State) {
    s.counter == |Counted(s)| && |Slotted(s)| <= max
  }

  lemma StepKeeps(max: nat, s: State, step: Step, s': State)
    requires Inv(max, s) && Next(max, s, step, s')
    ensures Inv(max, s')
  {
    var r := step.r;
    if step.Add? {
      assert Counted(s') == Counted(s) + {r};
      SubsetSize(Slotted(s'), Counted(s'));
      if s'.reqs[r].Over? {
        assert Slotted(s') == Slotted(s);
      }
    } else if step.Limit? {
      assert Counted(s') == Counted(s) && Slotted(s') == Slotted(s);
    } else {
      assert Counted(s') == Counted(s) - {r};
      SubsetSize(Slotted(s'), Slotted(s));
    }
  }

  ghost predicate IsRun(max: nat, states: seq<State>, steps: seq<Step>) {
    && |states| == |steps| + 1 && states[0] == State(0, map[])
    && forall n :: 0 <= n < |steps| ==> Next(max, states[n], steps[n], states[n + 1])
  }

  lemma {:induction false} RunKeeps(max: nat, states: seq<State>, steps: seq<Step>, n: nat)
    requires IsRun(max, states, steps) && n < |states|
    ensures Inv(max, states[n])
  {
    if n == 0 {
      assert Counted(states[0]) == {} && Slotted(states[0]) == {};
    } else {
      RunKeeps(max, states, steps, n - 1);
      StepKeeps(max, states[n - 1], steps[n - 1], states[n]);
    }
  }

  /**
   At every moment at most `max` requests are past the cap, running ones among
   them, and the counter is the running requests plus those still in doubt.
   */
  lemma NeverOverCap(max: nat, states: seq<State>, steps: seq<Step>, n: nat)
    requires IsRun(max, states, steps) && n < |states|
    ensures var s := states[n];
            && |InPhase(s, Running)| <= max
            && s.counter == |InPhase(s, Running)| + |InPhase(s, Over)| + |InPhase(s, Limiting)| + |InPhase(s, Refused)|
  {
    RunKeeps(max, states, steps, n);
    var s := states[n];
    var a, b, c, d := InPhase(s, Running), InPhase(s, Over), InPhase(s, Limiting), InPhase(s, Refused);
    SubsetSize(a, Slotted(s));
    assert Counted(s) == a + b + c + d && a !! b !! c !! d;
  }

  /** When every request has been answered and released, the counter is back at zero. */
  lemma SlotsComeBack(max: nat, states: seq<State>, steps: seq<Step>, n: nat)
    requires IsRun(max, states, steps) && n < |states|
    requires forall r :: r in states[n].reqs ==> states[n].reqs[r].Rejected? || states[n].reqs[r].Finished?
    ensures states[n].counter == 0
  {
    RunKeeps(max, states, steps, n);
    assert Counted(states[n]) == {};
  }
}
