/** The kernel's recursive owner lock as a protocol of atomic steps that any number
    of threads interleave: the compare-and-swap that takes it, the count that goes
    up afterwards, the count that goes down before the compare-and-swap that frees
    it, and the transfer used by the scheduler. */
module Locks {

  /** Where a thread is with respect to the lock. */
  datatype Phase =
    | Outside
    | Acquired(exclusive: bool)  // swapped itself in, count not yet raised
    | Holding
    | Releasing                  // count down to zero, not yet swapped out

  datatype Lock = Lock(lockval: nat, count: nat, waiting: bool)

  datatype State = State(lock: Lock, phases: map<nat, Phase>)

  /** Thread ids are positive: 0 is the free lock. `mayBlock` says that the caller
      may wait: the lock is not the scheduler's, and the caller does not hold that. */
  datatype Step =
    | Take(t: nat, exclusive: bool, mayBlock: bool)
    | Raise(t: nat)
    | Release(t: nat)
    | SwapOut(t: nat)
    | Transfer(from: nat, to: nat)

  datatype Outcome = Ok(s: State) | Panic

  function PhaseOf(s: State, t: nat): Phase {
    if t in s.phases then s.phases[t] else Outside
  }

  const Init := State(Lock(0, 0, false), map[])

  /** Steps a thread can be about to make. The middle steps are made only by a
      thread inside a call; a call is made only by a thread that is not inside one. */
  predicate Enabled(s: State, step: Step) {
    match step
    case Take(t, _, _) => PhaseOf(s, t).Outside? || PhaseOf(s, t).Holding?
    case Raise(t) => PhaseOf(s, t).Acquired?
    case Release(t) => PhaseOf(s, t).Outside? || PhaseOf(s, t).Holding?
    case SwapOut(t) => PhaseOf(s, t).Releasing?
    case Transfer(from, to) =>
      from != 0 && (PhaseOf(s, from).Outside? || PhaseOf(s, from).Holding?) && (from == to || PhaseOf(s, to).Outside?)
  }

  /** One atomic step, with every check that the source ends in a panic. */
  function Do(s: State, step: Step): Outcome {
    var l := s.lock;
    match step
    case Take(t, exclusive, mayBlock) =>
      if l.lockval == t && t != 0 then
        if exclusive then Panic else Ok(s.(lock := l.(count := l.count + 1)))
      else if t == 0 then Panic
      else if l.lockval == 0 then Ok(State(l.(lockval := t), s.phases[t := Acquired(exclusive)]))
      else if mayBlock then Ok(s.(lock := l.(waiting := true)))
      else Panic
    case Raise(t) =>
      if PhaseOf(s, t).Acquired? && PhaseOf(s, t).exclusive && l.count != 0 then Panic
      else if l.lockval == 0 then Panic
      else Ok(State(l.(waiting := false, count := l.count + 1), s.phases[t := Holding]))
    case Release(t) =>
      if l.lockval != t || l.count == 0 then Panic
      else Ok(State(l.(count := l.count - 1), s.phases[t := if l.count == 1 then Releasing else Holding]))
    case SwapOut(t) =>
      var swapped := if l.lockval == t then l.(lockval := 0) else l;
      if swapped.lockval != 0 then Panic else Ok(State(swapped, s.phases[t := Outside]))
    case Transfer(from, to) =>
      if l.lockval != from || to == 0 then Panic
      else Ok(State(l.(lockval := to), s.phases[from := Outside][to := Holding]))
  }

  // ---------- what the callers have done, told from the steps alone ----------

  /** What a step does to the number of takes of `t` that are not yet released:
      `own` before the step, and `handed` for the thread that transfers, if any. */
  function NestingStep(step: Step, t: nat, own: int, handed: int): int {
    match step
    case Take(u, _, _) => own + if u == t && own > 0 then 1 else 0
    case Raise(u) => own + if u == t then 1 else 0
    case Release(u) => own - if u == t then 1 else 0
    case SwapOut(_) => own
    case Transfer(from, to) => if to == t then handed else if from == t then 0 else own
  }

  /** How many takes of `t` are not yet released after a trace. */
  function Nesting(trace: seq<Step>, t: nat): int {
    if trace == [] then 0
    else
      var before, last := trace[..|trace| - 1], trace[|trace| - 1];
      NestingStep(last, t, Nesting(before, t), if last.Transfer? then Nesting(before, last.from) else 0)
  }

  /** The state after a trace of enabled steps, or a panic on the way. */
  ghost predicate Reaches(trace: seq<Step>, s: State) {
    if trace == [] then s == Init
    else
      var init, last := trace[..|trace| - 1], trace[|trace| - 1];
      exists before :: Reaches(init, before) && Enabled(before, last) && Do(before, last) == Ok(s)
  }

  // ---------- the invariant ----------

  /** At most the owner is past `Outside`; the count is the owner's nesting, and is
      zero in the two windows of a take and a release, and when the lock is free. */
  ghost predicate Inv(s: State, trace: seq<Step>) {
    var l := s.lock;
    && (forall t :: t != l.lockval ==> PhaseOf(s, t).Outside? && Nesting(trace, t) == 0)
    && PhaseOf(s, 0).Outside? && Nesting(trace, 0) == 0
    && (l.lockval == 0 ==> l.count == 0)
    && (l.lockval != 0 ==> match PhaseOf(s, l.lockval)
          case Outside => false
          case Acquired(_) => l.count == 0 == Nesting(trace, l.lockval)
          case Holding => l.count == Nesting(trace, l.lockval) > 0
          case Releasing => l.count == 0 == Nesting(trace, l.lockval))
  }

  /** What a caller can do wrong. */
  predicate Misuse(s: State, step: Step) {
    match step
    case Take(t, exclusive, mayBlock) =>
      || t == 0                                        // no such thread
      || (exclusive && PhaseOf(s, t).Holding?)         // taking it again
      || (!mayBlock && s.lock.lockval != 0 && s.lock.lockval != t)  // waiting where waiting is not allowed
    case Raise(_) => false
    case Release(t) => !PhaseOf(s, t).Holding?         // releasing what is not held
    case SwapOut(_) => false
    case Transfer(from, to) => !PhaseOf(s, from).Holding? || to == 0
  }

  lemma InitInv()
    ensures Inv(Init, [])
  {
  }

  lemma NestingLast(trace: seq<Step>, step: Step, t: nat)
    ensures Nesting(trace + [step], t)
         == NestingStep(step, t, Nesting(trace, t), if step.Transfer? then Nesting(trace, step.from) else 0)
  {
    assert (trace + [step])[..|trace|] == trace;
  }

  /** Every step keeps the invariant. */
  lemma StepKeepsInv(s: State, trace: seq<Step>, step: Step)
    requires Inv(s, trace) && Enabled(s, step) && Do(s, step).Ok?
    ensures Inv(Do(s, step).s, trace + [step])
  {
    var s' := Do(s, step).s;
    NestingLast(trace, step, s.lock.lockval);
    NestingLast(trace, step, s'.lock.lockval);
    NestingLast(trace, step, 0);
    forall t: nat | t != s'.lock.lockval
      ensures PhaseOf(s', t).Outside? && Nesting(trace + [step], t) == 0
    {
      NestingLast(trace, step, t);
      assert t != s.lock.lockval ==> PhaseOf(s, t).Outside?;
    }
  }

  /** A step panics exactly when a caller misuses the lock: the checks for a lock
      taken with a count left over, or still set after its release, never fail. */
  lemma PanicsOnlyOnMisuse(s: State, trace: seq<Step>, step: Step)
    requires Inv(s, trace) && Enabled(s, step)
    ensures Do(s, step).Panic? <==> Misuse(s, step)
  {
    assert step.Raise? ==> step.t == s.lock.lockval;
    assert step.Release? && PhaseOf(s, step.t).Holding? ==> step.t == s.lock.lockval;
  }

  lemma {:induction false} ReachableInv(trace: seq<Step>, s: State)
    requires Reaches(trace, s)
    ensures Inv(s, trace)
  {
    if trace == [] {
      InitInv();
    } else {
      var init, last := trace[..|trace| - 1], trace[|trace| - 1];
      var before :| Reaches(init, before) && Enabled(before, last) && Do(before, last) == Ok(s);
      ReachableInv(init, before);
      StepKeepsInv(before, init, last);
      assert init + [last] == trace;
    }
  }

  /** Mutual exclusion and the meaning of the count in every reachable state. */
  lemma MutualExclusion(trace: seq<Step>, s: State, t: nat, u: nat)
    requires Reaches(trace, s) && !PhaseOf(s, t).Outside? && !PhaseOf(s, u).Outside?
    ensures t == u && s.lock.lockval == t
    ensures PhaseOf(s, t).Holding? ==> s.lock.count == Nesting(trace, t) > 0
    ensures !PhaseOf(s, t).Holding? ==> s.lock.count == 0
  {
    ReachableInv(trace, s);
  }
}
