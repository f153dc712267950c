/** The scheduler's thread table as it is updated in place: choosing a thread,
    building a schedule by linking threads, and switching to the next one. */
module Scheduler {
  import opened SchedulePass
  import Locks

  lemma ScanStep(v: seq<Entry>, i: nat)
    requires i < |v|
    ensures HasRunnable(v[..i + 1]) <==> HasRunnable(v[..i]) || v[i].status.Runnable?
    ensures MinDyn(v[..i + 1]) == if v[i].status.Runnable? && v[i].dyn < MinDyn(v[..i]) then v[i].dyn else MinDyn(v[..i])
  {
    assert v[..i + 1][..i] == v[..i];
    assert forall k :: 0 <= k < i ==> v[..i + 1][k] == v[..i][k];
    assert v[..i + 1][i] == v[i];
  }

  ghost predicate LinksInRange(next: seq<int>) {
    forall i :: 0 <= i < |next| ==> -1 <= next[i] < |next|
  }

  /** Following `next` from `from` visits `links` in order. */
  ghost predicate Chained(next: seq<int>, from: nat, links: seq<nat>) {
    && from < |next| && (forall k :: 0 <= k < |links| ==> links[k] < |next|)
    && (links != [] ==> next[from] == links[0])
    && forall k :: 0 <= k < |links| - 1 ==> next[links[k]] == links[k + 1]
  }

  function Last(from: nat, links: seq<nat>): nat {
    if links == [] then from else links[|links| - 1]
  }

  /** The runnable ones of these threads, in order. */
  ghost function Runnables(ts: seq<Entry>, links: seq<nat>): seq<nat> {
    if links == [] then []
    else
      var rest, last := Runnables(ts, links[..|links| - 1]), links[|links| - 1];
      if last < |ts| && ts[last].status.Runnable? then rest + [last] else rest
  }

  lemma RunnablesNext(ts: seq<Entry>, links: seq<nat>, k: nat)
    requires k < |links|
    ensures Runnables(ts, links[..k + 1])
         == Runnables(ts, links[..k]) + if links[k] < |ts| && ts[links[k]].status.Runnable? then [links[k]] else []
  {
    assert links[..k + 1][..k] == links[..k];
  }

  lemma {:induction false} AllAreRunnable(ts: seq<Entry>, links: seq<nat>)
    requires AllRunnable(ts, links)
    ensures Runnables(ts, links) == links
  {
    if links != [] {
      var rest, last := links[..|links| - 1], links[|links| - 1];
      AllAreRunnable(ts, rest);
      assert last in links && links == rest + [last];
    }
  }

  /** No two threads in a row have stopped being runnable. */
  ghost predicate NoTwoStopped(ts: seq<Entry>, links: seq<nat>) {
    && (forall k :: 0 <= k < |links| ==> links[k] < |ts|)
    && forall k :: 0 <= k < |links| - 1 ==> ts[links[k]].status.Runnable? || ts[links[k + 1]].status.Runnable?
  }

  lemma NobodyStopped(ts: seq<Entry>, links: seq<nat>)
    requires AllRunnable(ts, links)
    ensures NoTwoStopped(ts, links) && forall i :: i in links ==> i < |ts| && ts[i].status.Runnable?
  {
  }

  /** The links once the runnable ones of the first `k` threads of a schedule were switched
      to: a thread that was switched away from has none, one that was skipped has its own. */
  ghost function RunUpTo(next: seq<int>, ts: seq<Entry>, from: nat, links: seq<nat>, k: nat): (r: seq<int>)
    requires k <= |links| && |ts| == |next|
    ensures |r| == |next|
  {
    seq(|next|, i requires 0 <= i < |next| =>
      if k > 0 && (i == from || (i in links[..k - 1] && ts[i].status.Runnable?)) then -1 else next[i])
  }

  /** The links after a round: those of the runnable threads and of `from` are gone. */
  ghost predicate AllRun(next: seq<int>, now: seq<int>, ts: seq<Entry>, from: nat, links: seq<nat>) {
    && |now| == |next| == |ts|
    && forall i :: 0 <= i < |next| ==> now[i] == if i == from || (i in links && ts[i].status.Runnable?) then -1 else next[i]
  }

  /** The place in the schedule of the thread that runs next: the `k`th, or the one behind
      if that has stopped. */
  ghost function Place(ts: seq<Entry>, links: seq<nat>, k: nat): nat {
    if k < |links| && links[k] < |ts| && !ts[links[k]].status.Runnable? then k + 1 else k
  }

  /** The thread that runs after the first `k`, and the links when it does. */
  lemma NextToRun(next: seq<int>, ts: seq<Entry>, from: nat, links: seq<nat>, k: nat)
    requires Chained(next, from, links) && Distinct(links) && from !in links && next[Last(from, links)] == -1
    requires NoTwoStopped(ts, links) && k <= |links| && |ts| == |next| && (k > 0 ==> ts[links[k - 1]].status.Runnable?)
    ensures var at := Last(from, links[..k]); var now := RunUpTo(next, ts, from, links, k);
      && at < |next| && now[at] == (if k < |links| then links[k] else -1)
      && (k < |links| && !ts[links[k]].status.Runnable? ==> links[k] != at && now[links[k]] == if k + 1 < |links| then links[k + 1] else -1)
    ensures var m := Place(ts, links, k); m < |links| ==> ts[links[m]].status.Runnable? && links[m] != from
    ensures var m := Place(ts, links, k); m < |links| ==> Last(from, links[..m + 1]) == links[m]
  {
    var at := Last(from, links[..k]);
    assert k > 0 ==> at == links[k - 1];
    assert k < |links| - 1 ==> next[links[k]] == links[k + 1];
  }

  lemma NextLinks(next: seq<int>, ts: seq<Entry>, from: nat, links: seq<nat>, k: nat)
    requires Chained(next, from, links) && Distinct(links) && from !in links
    requires NoTwoStopped(ts, links) && k <= |links| && |ts| == |next| && (k > 0 ==> ts[links[k - 1]].status.Runnable?)
    ensures var m := Place(ts, links, k); var at := Last(from, links[..k]);
      at < |next| && (m < |links| ==> RunUpTo(next, ts, from, links, k)[at := -1] == RunUpTo(next, ts, from, links, m + 1))
    ensures var now := RunUpTo(next, ts, from, links, k)[Last(from, links[..k]) := -1];
      Place(ts, links, k) >= |links| ==> AllRun(next, now, ts, from, links)
  {
    var at, m := Last(from, links[..k]), Place(ts, links, k);
    assert k > 0 ==> at == links[k - 1] && links[..k] == links[..k - 1] + [at];
    assert k < |links| ==> links[..k + 1] == links[..k] + [links[k]];
    assert links[..|links|] == links;
  }

  /** Who ran among the first `k`. */
  ghost function Ran(ts: seq<Entry>, links: seq<nat>, k: nat): seq<nat>
    requires k <= |links|
  {
    Runnables(ts, links[..k])
  }

  lemma NextVisited(ts: seq<Entry>, links: seq<nat>, k: nat)
    requires NoTwoStopped(ts, links) && k <= |links|
    ensures var m := Place(ts, links, k);
      && (m < |links| ==> Ran(ts, links, m + 1) == Ran(ts, links, k) + [links[m]])
      && (m >= |links| ==> Ran(ts, links, k) == Runnables(ts, links))
  {
    hide Runnables;
    assert links[..|links|] == links;
    if k < |links| {
      RunnablesNext(ts, links, k);
    }
    if k + 1 < |links| {
      RunnablesNext(ts, links, k + 1);
    }
  }

  lemma LastInside(next: seq<int>, from: nat, links: seq<nat>)
    requires Chained(next, from, links)
    ensures Last(from, links) < |next|
  {
  }

  lemma ChainGrows(next: seq<int>, from: nat, links: seq<nat>, p: nat)
    requires Chained(next, from, links) && Distinct(links) && from !in links && p < |next| && p !in links
    ensures Chained(next[Last(from, links) := p], from, links + [p])
  {
  }

  /** Exactly the blocked threads whose block check succeeded have become runnable, and
      nobody's priority or process changed. */
  ghost predicate Awake(was: seq<Entry>, wakes: seq<bool>, ts: seq<Entry>) {
    && |was| == |wakes| == |ts|
    && forall i :: 0 <= i < |ts| ==>
         && ts[i].status == (if was[i].status.Blocked? && wakes[i] then Runnable else was[i].status)
         && ts[i].priority == was[i].priority && ts[i].pid == was[i].pid
  }

  lemma AwakeAfter(was: seq<Entry>, wakes: seq<bool>, ts: seq<Entry>)
    requires |was| == |wakes| && SameThreads(ts, Woken(was, wakes))
    ensures Awake(was, wakes, ts)
  {
  }

  lemma PassWakes(ts: seq<Entry>, wakes: seq<bool>, current: nat, idle: nat, cycle: U32, pref: Preference)
    requires current < |ts| && |wakes| == |ts|
    ensures Awake(ts, wakes, Pass(ts, wakes, current, idle, cycle, pref).threads)
  {
    FillLinks(Woken(ts, wakes), current, idle, cycle, pref, []);
    AwakeAfter(ts, wakes, Pass(ts, wakes, current, idle, cycle, pref).threads);
  }

  ghost predicate AllRunnable(ts: seq<Entry>, links: seq<nat>) {
    forall k :: 0 <= k < |links| ==> links[k] < |ts| && ts[links[k]].status.Runnable?
  }

  lemma StillRunnable(a: seq<Entry>, b: seq<Entry>, links: seq<nat>)
    requires AllRunnable(a, links) && |b| == |a| && forall i :: 0 <= i < |a| && a[i].status.Runnable? ==> b[i].status.Runnable?
    ensures AllRunnable(b, links)
  {
  }

  lemma OneMoreRunnable(a: seq<Entry>, b: seq<Entry>, links: seq<nat>, p: nat)
    requires AllRunnable(a, links) && p < |a| && a[p].status.Runnable?
    requires |b| == |a| && forall i :: 0 <= i < |a| ==> b[i].status == a[i].status
    ensures AllRunnable(b, links + [p])
  {
  }

  lemma SameCyclesOn(a: seq<Entry>, b: seq<Entry>, links: seq<nat>, cycle: U32)
    requires SameCycles(a, b)
    ensures OnCycle(b, links, cycle) <==> OnCycle(a, links, cycle)
  {
  }

  lemma FillStep(ts: seq<Entry>, current: nat, idle: nat, cycle: U32, pref: Preference, links: seq<nat>)
    requires current < |ts| && HasRunnable(ts) && !Refused(Find(ts, current, pref), cycle, idle, links)
    ensures var c := Find(ts, current, pref); var n := Step(ts, current, cycle, pref);
      && Fill(ts, current, idle, cycle, pref, links) == Fill(n, current, idle, cycle, c.pref, links + [c.torun])
      && |NotYet(n, cycle)| < |NotYet(ts, cycle)|
  {
    LinkShrinks(ts, current, pref, cycle);
  }

  lemma StepValid(ts: seq<Entry>, current: nat, cycle: U32, pref: Preference)
    requires Prescheduling(ts, current) && HasRunnable(ts)
    ensures Prescheduling(Step(ts, current, cycle, pref), current)
  {
    StepKeeps(ts, current, cycle, pref);
  }

  lemma FillStop(ts: seq<Entry>, current: nat, idle: nat, cycle: U32, pref: Preference, links: seq<nat>)
    requires current < |ts| && (HasRunnable(ts) ==> Refused(Find(ts, current, pref), cycle, idle, links))
    ensures Fill(ts, current, idle, cycle, pref, links)
         == if HasRunnable(ts) then Outcome(Find(ts, current, pref).threads, links, Find(ts, current, pref).pref)
            else Outcome(ts, links, pref)
  {
  }

  class Table {
    var threads: seq<Entry>  // a thread is its index
    var next: seq<int>       // the thread to switch to, or -1
    const extId: seq<nat>
    var current: nat
    const prescheduler: nat
    const idle: nat
    var cycle: U32           // the prescheduler's own count of passes
    var lastCycle: U32       // cycle of the last call of FindThread
    var pref: Preference
    var schLock: Locks.State // the scheduler lock and where threads are in its calls
    ghost var trace: seq<Locks.Step>

    ghost predicate Valid()
      reads this
    {
      && |threads| == |next| == |extId| && current < |threads| && prescheduler < |threads|
      && LinksInRange(next)
      && (forall i :: 0 <= i < |extId| ==> extId[i] != 0)
      && threads[prescheduler].status.Special?
      && (forall i :: 0 <= i < |threads| ==> threads[i].priority >= 1)
      && Locks.Inv(schLock, trace)
    }

    /** The first loop of `sch_find_thread`: wake, count and find the minimum.
        Block checks are tried only in the first call of a cycle. */
    method Scan(wakes: seq<bool>, now: U32) returns (runnables: nat, min: U32)
      requires |wakes| == |threads|
      modifies this`threads, this`lastCycle
      ensures threads == (if old(lastCycle) != now then Woken(old(threads), wakes) else old(threads))
      ensures if old(lastCycle) != now then Awake(old(threads), wakes, threads) else threads == old(threads)
      ensures runnables > 0 <==> HasRunnable(threads)
      ensures min == MinDyn(threads) && lastCycle == now
    {
      assert !HasRunnable([]) && MinDyn([]) == MAX32;
      hide HasRunnable, MinDyn;
      runnables, min := 0, 0xFFFF_FFFF;
      ghost var before := threads;
      ghost var target := if lastCycle != now then Woken(threads, wakes) else threads;
      assert forall k :: 0 <= k < |target| ==> target[k] == if lastCycle != now then WokenEntry(before[k], wakes[k]) else before[k];
      hide Woken;
      for i := 0 to |threads|
        invariant |threads| == |target| == |before| && lastCycle == old(lastCycle)
        invariant forall k :: 0 <= k < |threads| ==> threads[k] == if k < i then target[k] else before[k]
        invariant runnables > 0 <==> HasRunnable(target[..i])
        invariant min == MinDyn(target[..i])
      {
        if lastCycle != now && threads[i].status.Blocked? && wakes[i] {
          threads := threads[i := threads[i].(status := Runnable)];
        }
        ScanStep(target, i);
        if threads[i].status.Runnable? {
          runnables := runnables + 1;
          if threads[i].dyn < min {
            min := threads[i].dyn;
          }
        }
      }
      assert target[..|threads|] == target;
      lastCycle := now;
    }

    /** The loop for a directed yield. */
    method SearchPreferred() returns (found: int)
      modifies this`pref
      ensures (found, pref) == Preferred(threads, 0, -1, old(pref))
    {
      found := -1;
      ghost var goal := Preferred(threads, 0, -1, pref);
      for i := 0 to |threads|
        invariant Preferred(threads, i, found, pref) == goal
      {
        if threads[i].status.Runnable? && threads[i].pid == pref.next {
          found := i;
          pref := Preference(pref.back, 0);
        }
      }
    }

    /** The loop that subtracts the minimum; the last thread due is chosen. */
    method AgeThreads(min: U32) returns (due: int)
      requires forall i :: 0 <= i < |threads| && threads[i].status.Runnable? ==> min <= threads[i].dyn
      modifies this`threads
      ensures threads == AgedAll(old(threads), min, current)
      ensures due == LastDue(threads, |threads|, current)
    {
      due := -1;
      ghost var before := threads;
      ghost var target := AgedAll(before, min, current);
      for i := 0 to |threads|
        invariant |threads| == |target| == |before|
        invariant forall k :: 0 <= k < |threads| ==> threads[k] == if k < i then target[k] else before[k]
        invariant due == LastDue(target, i, current)
      {
        var t := threads[i];
        if t.status.Runnable? {
          if t.dyn != 0 {
            t := t.(dyn := t.dyn - min);
          }
          if i != current && t.dyn == 0 {
            due := i;
          } else if t.modifier != 0 {
            t := t.(modifier := t.modifier - 1);
          }
        } else if t.modifier != 0 {
          t := t.(modifier := t.modifier - 1);
        }
        assert t == target[i];
        threads := threads[i := t];
      }
    }

    method LoadThread(i: nat)
      requires i < |threads|
      modifies this`threads
      ensures threads == old(threads)[i := Loaded(old(threads)[i])]
    {
      if threads[i].modifier < MODIFIER_LIMIT {
        threads := threads[i := threads[i].(modifier := threads[i].modifier + 1)];
      }
    }

    /** `sch_find_thread` */
    method FindThread(wakes: seq<bool>, now: U32) returns (found: bool, torun: nat)
      requires |wakes| == |threads| && current < |threads|
      modifies this`threads, this`lastCycle, this`pref
      ensures lastCycle == now && |threads| == |old(threads)|
      ensures var awake := if old(lastCycle) != now then Woken(old(threads), wakes) else old(threads);
        && found == HasRunnable(awake)
        && (found ==> Choice(threads, torun, pref) == Find(awake, current, old(pref)))
        && (!found ==> threads == awake && pref == old(pref))
      ensures if old(lastCycle) != now then Awake(old(threads), wakes, threads) else SameThreads(threads, old(threads))
    {
      var runnables, min := Scan(wakes, now);
      ghost var awake := threads;
      if runnables == 0 {
        return false, 0;
      }
      hide HasRunnable, MinDyn, Preferred, AgedAll, LastDue, Woken;
      var chosen := -1;
      if pref.next != 0 {
        chosen := SearchPreferred();
      }
      if chosen < 0 {
        chosen := AgeThreads(min);
      }
      torun := if chosen >= 0 then chosen else current;
      LoadThread(torun);
      found := true;
      FindKeeps(awake, current, old(pref));
      if old(lastCycle) != now {
        AwakeAfter(old(threads), wakes, threads);
      }
    }

    method EnterThread(i: nat, now: U32)
      requires i < |threads|
      modifies this`threads
      ensures threads == old(threads)[i := Linked(old(threads)[i], now)]
    {
      LoadThread(i);
      var t := threads[i];
      if t.priority + t.modifier <= MAX32 {
        t := t.(dyn := t.priority + t.modifier);
      } else {
        t := t.(dyn := 0xFFFF_FFFF);
      }
      threads := threads[i := t.(cycle := now)];
    }

    /** The last call of FindThread looked at `ts` and `was`, and what is left of the
        pass from there gives `goal`. */
    ghost predicate Searched(ts: seq<Entry>, was: Preference, found: bool, torun: nat, links: seq<nat>, goal: Outcome)
      reads this
    {
      && Prescheduling(ts, current) && Prescheduling(threads, current) && |ts| == |threads|
      && found == HasRunnable(ts)
      && (found ==> Choice(threads, torun, pref) == Find(ts, current, was))
      && (found ==> SameCycles(threads, ts) && threads[torun].status.Runnable?)
      && (!found ==> threads == ts && pref == was)
      && goal == Fill(ts, current, idle, cycle, was, links)
    }

    /** Links and schedule built so far. */
    ghost predicate Building(links: seq<nat>, at: nat, first: seq<int>)
      reads this
    {
      && Chained(next, prescheduler, links) && at == Last(prescheduler, links)
      && Distinct(links) && prescheduler !in links && OnCycle(threads, links, cycle)
      && |first| == |next| && LinksInRange(next) && next[at] == first[at] && AllRunnable(threads, links)
      && forall i :: 0 <= i < |next| && i != prescheduler && i !in links ==> next[i] == first[i]
    }

    /** FindThread in a cycle whose wake-ups are done, with what it means for the pass. */
    method Search(wakes: seq<bool>, ghost ts: seq<Entry>, ghost links: seq<nat>, ghost goal: Outcome, ghost at: nat, ghost first: seq<int>)
      returns (found: bool, torun: nat)
      requires Prescheduling(ts, current) && |wakes| == |threads| && Building(links, at, first)
      requires ts == if lastCycle != cycle then Woken(threads, wakes) else threads
      requires goal == Fill(ts, current, idle, cycle, pref, links)
      modifies this`threads, this`lastCycle, this`pref
      ensures lastCycle == cycle && Searched(ts, old(pref), found, torun, links, goal) && Building(links, at, first)
    {
      ghost var was := pref;
      assert SameCycles(ts, threads);
      StillRunnable(threads, ts, links);
      found, torun := FindThread(wakes, cycle);
      hide AllRunnable, Fill, Woken, HasRunnable, Chained, Distinct, LinksInRange, Find, OnCycle;
      if found {
        FindValid(ts, current, was);
        FindKeeps(ts, current, was);
        StillRunnable(ts, threads, links);
        SameCyclesOn(threads, ts, links, cycle);
      }
      SameCyclesOn(ts, old(threads), links, cycle);
    }

    /** The body of the pass: put `torun` after `at`. */
    method LinkAfter(at: nat, torun: nat, ghost links: seq<nat>, ghost first: seq<int>)
      requires Building(links, at, first) && |threads| == |next| && Prescheduling(threads, prescheduler)
      requires torun < |threads| && threads[torun].cycle != cycle && threads[torun].status.Runnable?
      modifies this`threads, this`next
      ensures threads == old(threads)[torun := Linked(old(threads)[torun], cycle)]
      ensures |next| == |threads| && Building(links + [torun], torun, first)
    {
      assert torun !in links && torun != prescheduler;
      ChainGrows(next, prescheduler, links, torun);
      next := next[at := torun];
      EnterThread(torun, cycle);
      LinksGrow(old(threads), threads, links, torun, cycle);
      OneMoreRunnable(old(threads), threads, links, torun);
      assert at == prescheduler || at in links;
    }

    /** One iteration: link the thread found, and find the next. */
    method Advance(wakes: seq<bool>, at: nat, torun: nat, ghost ts: seq<Entry>, ghost was: Preference, ghost links: seq<nat>,
                   ghost goal: Outcome, ghost first: seq<int>) returns (found: bool, after: nat)
      requires lastCycle == cycle && |wakes| == |threads| == |next| && current == prescheduler
      requires Searched(ts, was, true, torun, links, goal) && Building(links, at, first)
      requires !Refused(Choice(threads, torun, pref), cycle, idle, links)
      modifies this`threads, this`next, this`lastCycle, this`pref
      ensures lastCycle == cycle && |threads| == |next| == |old(threads)|
      ensures Searched(Step(ts, current, cycle, was), old(pref), found, after, links + [torun], goal)
      ensures Building(links + [torun], torun, first)
      ensures |NotYet(Step(ts, current, cycle, was), cycle)| < |NotYet(ts, cycle)|
    {
      FillStep(ts, current, idle, cycle, was, links);
      hide Fill, Find, Woken, HasRunnable, Chained, OnCycle, Distinct, LinksInRange, AllRunnable;
      LinkAfter(at, torun, links, first);
      StepValid(ts, current, cycle, was);
      hide Prescheduling, SameCycles, NotYet;
      found, after := Search(wakes, Step(ts, current, cycle, was), links + [torun], goal, torun, first);
    }

    /** The loop of the pass, from its first search on. */
    method FillSchedule(wakes: seq<bool>, ghost start: seq<Entry>, ghost goal: Outcome) returns (ghost links: seq<nat>)
      requires |wakes| == |threads| == |next| && current == prescheduler && LinksInRange(next)
      requires Prescheduling(start, current) && start == if lastCycle != cycle then Woken(threads, wakes) else threads
      requires goal == Fill(start, current, idle, cycle, pref, [])
      modifies this`threads, this`next, this`lastCycle, this`pref
      ensures lastCycle == cycle && |threads| == |next| == |old(threads)|
      ensures Outcome(threads, links, pref) == goal && Prescheduling(threads, current)
      ensures Building(links, Last(prescheduler, links), old(next))
    {
      ghost var ts, was := start, pref;
      var at, count := current, 0;
      links := [];
      var found, torun := Search(wakes, ts, links, goal, at, old(next));
      hide Fill, Find, Woken, HasRunnable, Chained, OnCycle, Distinct, LinksInRange, Step, AllRunnable;
      while found && threads[torun].cycle != cycle && !(count != 0 && torun == idle)
        invariant lastCycle == cycle && |wakes| == |threads| == |next|
        invariant Searched(ts, was, found, torun, links, goal)
        invariant Building(links, at, old(next)) && count == |links|
        decreases |NotYet(ts, cycle)|
      {
        ghost var n := Step(ts, current, cycle, was);
        var linked := torun;
        ghost var p := pref;
        found, torun := Advance(wakes, at, torun, ts, was, links, goal, old(next));
        at := linked;
        count := count + 1;
        links := links + [linked];
        ts, was := n, p;
      }
      FillStop(ts, current, idle, cycle, was, links);
    }

    /** One pass of `sch_prescheduler_thread`, run on the prescheduler's own thread:
        the threads and preference are those of `Pass`, and the links that `Pass`
        chose are followed by `next` from the prescheduler. */
    method Preschedule(wakes: seq<bool>) returns (ghost links: seq<nat>)
      requires Valid() && current == prescheduler && |wakes| == |threads| && lastCycle == cycle
      modifies this`threads, this`next, this`lastCycle, this`pref, this`cycle
      ensures Valid() && cycle == (old(cycle) + 1) % 0x1_0000_0000 && lastCycle == cycle
      ensures Awake(old(threads), wakes, threads)
      ensures Outcome(threads, links, pref) == Pass(old(threads), wakes, current, idle, cycle, old(pref))
      ensures Chained(next, prescheduler, links) && Distinct(links) && prescheduler !in links && AllRunnable(threads, links)
      ensures next[Last(prescheduler, links)] == old(next)[Last(prescheduler, links)]
      ensures forall i :: 0 <= i < |next| && i != prescheduler && i !in links ==> next[i] == old(next)[i]
    {
      cycle := (cycle + 1) % 0x1_0000_0000;
      ghost var start := Woken(threads, wakes);
      assert Prescheduling(start, current);
      hide Fill, Woken, Locks.Inv, Awake;
      PassWakes(threads, wakes, current, idle, cycle, pref);
      links := FillSchedule(wakes, start, Pass(threads, wakes, current, idle, cycle, pref));
    }

    // ---------- switching threads ----------

    /** One step of the running thread on the scheduler lock that is no misuse of it. */
    method LockStep(step: Locks.Step)
      requires Locks.Inv(schLock, trace) && Locks.Enabled(schLock, step) && !Locks.Misuse(schLock, step)
      modifies this`schLock, this`trace
      ensures Locks.Inv(schLock, trace) && Locks.Do(old(schLock), step) == Locks.Ok(schLock) && trace == old(trace) + [step]
    {
      hide Locks.Inv, Locks.Misuse, Locks.Enabled;
      Locks.PanicsOnlyOnMisuse(schLock, trace, step);
      Locks.StepKeepsInv(schLock, trace, step);
      schLock := Locks.Do(schLock, step).s;
      trace := trace + [step];
    }

    /** The running thread is not inside a call that takes or releases the lock. */
    ghost predicate AtCall()
      reads this
    {
      current < |extId| && var phase := Locks.PhaseOf(schLock, extId[current]); phase.Outside? || phase.Holding?
    }

    /** Whom the running thread switches to: the thread after it, skipping that once if it
        has stopped being runnable, or else the prescheduler. */
    ghost function Successor(): (r: nat)
      reads this
      requires Valid()
    {
      var cleared := next[current := -1];
      var after := next[current];
      var skipped := if after >= 0 && !threads[after].status.Runnable? then cleared[after] else after;
      if skipped >= 0 then skipped else prescheduler
    }

    /** The next two threads of the schedule have stopped being runnable. */
    ghost predicate TwoStopped()
      reads this
      requires Valid()
    {
      var a := next[current];
      && a >= 0 && a != current && !threads[a].status.Runnable?
      && next[a] >= 0 && next[a] != prescheduler && !threads[next[a]].status.Runnable?
    }

    /** `sch_schedule`: panics exactly if the caller does not hold the scheduler lock.
        Otherwise the lock goes over to the thread that is resumed, with the caller's
        nesting and without either check of the hand-over failing, and nobody else is
        inside. That thread is runnable, or the prescheduler, exactly if not both of the next
        two threads of the schedule have stopped being so. */
    method Schedule() returns (panicked: bool)
      requires Valid() && AtCall()
      modifies this`current, this`next, this`schLock, this`trace
      ensures Valid() && (panicked <==> !Locks.PhaseOf(old(schLock), extId[old(current)]).Holding?)
      ensures panicked ==> current == old(current) && next == old(next) && schLock == old(schLock)
      ensures !panicked ==> current == old(Successor()) && next == old(next)[old(current) := -1]
      ensures !panicked ==> var a := old(next)[old(current)]; a >= 0 && threads[a].status.Runnable? ==> current == a
      ensures !panicked ==> var a := old(next)[old(current)]; a >= 0 && !threads[a].status.Runnable? ==>
        current == if next[a] >= 0 then next[a] else prescheduler
      ensures !panicked && old(next)[old(current)] < 0 ==> current == prescheduler
      ensures !panicked ==> (threads[current].status.Runnable? || current == prescheduler <==> !old(TwoStopped()))
      ensures !panicked ==> trace == old(trace) + [Locks.Transfer(extId[old(current)], extId[current])]
      ensures !panicked ==> Locks.PhaseOf(schLock, extId[current]).Holding?
      ensures !panicked ==> forall t: nat :: t != extId[current] ==> Locks.PhaseOf(schLock, t).Outside?
      ensures !panicked ==> schLock.lock == old(schLock).lock.(lockval := extId[current])
      ensures !panicked ==> schLock.lock.count == Locks.Nesting(trace, extId[current]) == Locks.Nesting(old(trace), extId[old(current)])
    {
      hide LinksInRange;
      LockFacts(extId[current]);
      if schLock.lock.lockval != extId[current] {
        return true;
      }
      RangeFacts(next);
      var torun := next[current];
      var from := current;
      LockFacts(extId[if Successor() < |extId| then Successor() else 0]);
      next := next[current := -1];
      if torun >= 0 && !threads[torun].status.Runnable? {
        torun := next[torun];
      }
      if torun < 0 {
        torun := prescheduler;
      }
      RangeCleared(old(next), from);
      hide Locks.Inv, Locks.Nesting;
      current := torun;
      LockStep(Locks.Transfer(extId[from], extId[torun]));
      LockFacts(extId[torun]);
      panicked := false;
    }

    /** What the lock's invariant says about one thread and all others. */
    lemma LockFacts(t: nat)
      requires Locks.Inv(schLock, trace)
      ensures var phase := Locks.PhaseOf(schLock, t);
        && (phase.Holding? ==> schLock.lock.lockval == t != 0 && schLock.lock.count == Locks.Nesting(trace, t) > 0)
        && (phase.Outside? ==> schLock.lock.lockval != t || t == 0)
        && (schLock.lock.lockval != t ==> phase.Outside?)
        && (!phase.Outside? ==> forall u: nat :: u != t ==> Locks.PhaseOf(schLock, u).Outside?)
      ensures schLock.lock.lockval == 0 ==> schLock.lock.count == 0 && forall u: nat :: Locks.PhaseOf(schLock, u).Outside?
    {
    }

    lemma RangeFacts(links: seq<int>)
      requires LinksInRange(links)
      ensures forall i :: 0 <= i < |links| ==> -1 <= links[i] < |links|
    {
    }

    lemma RangeCleared(links: seq<int>, i: nat)
      requires LinksInRange(links) && i < |links|
      ensures LinksInRange(links[i := -1])
    {
    }

    /** `sch_yield`: with the scheduler lock free the running thread takes it, switches, and
        the thread that is resumed frees it; nothing on the way panics. If the lock is held
        there is no switch. */
    method Yield() returns (switched: bool)
      requires Valid() && AtCall()
      modifies this`current, this`next, this`schLock, this`trace
      ensures Valid() && (switched <==> old(schLock).lock.lockval == 0)
      ensures switched ==> schLock.lock.lockval == 0 && schLock.lock.count == 0 && AtCall()
      ensures switched ==> current == old(Successor()) && next == old(next)[old(current) := -1]
      ensures !switched ==> current == old(current) && next == old(next) && schLock == old(schLock)
    {
      hide LinksInRange, Locks.Inv, Locks.Nesting;
      if schLock.lock.lockval != 0 {
        return false;
      }
      LockFacts(0);
      LockFacts(extId[current]);
      LockStep(Locks.Take(extId[current], true, false));
      LockFacts(extId[current]);
      LockStep(Locks.Raise(extId[current]));
      LockFacts(extId[current]);
      var panicked := Schedule();
      LockFacts(extId[current]);
      LockStep(Locks.Release(extId[current]));
      LockFacts(extId[current]);
      LockStep(Locks.SwapOut(extId[current]));
      LockFacts(0);
      switched := true;
    }

    /** From the prescheduler on, every yield switches to the next runnable thread of the
        schedule, each of which gets its turn once, in order, and after the last to the
        prescheduler. Threads that have stopped since the pass are skipped, if no two of
        them are neighbours, and keep their links. */
    method Round(ghost links: seq<nat>) returns (visited: seq<nat>)
      requires Valid() && current == prescheduler && schLock.lock.lockval == 0
      requires Chained(next, prescheduler, links) && Distinct(links) && prescheduler !in links && NoTwoStopped(threads, links)
      requires next[Last(prescheduler, links)] == -1
      modifies this`current, this`next, this`schLock, this`trace
      ensures Valid() && visited == Runnables(threads, links) + [prescheduler] && current == prescheduler && schLock.lock.lockval == 0
      ensures AllRun(old(next), next, threads, prescheduler, links)
    {
      BeforeRound(links);
      hide *;
      visited := [];
      ghost var k := 0;
      while true
        invariant 0 <= k <= |links| && visited == Ran(threads, links, k) && MidRound(old(next), links, k)
        decreases |links| - k
      {
        k := Turn(old(next), links, k);
        visited := visited + [current];
        if current == prescheduler {
          return;
        }
      }
    }

    /** Where a round that began with the links `first` is, once the turns of the first `k`
        threads of its schedule are over but for that of the last. */
    ghost predicate MidRound(first: seq<int>, links: seq<nat>, k: nat)
      reads this
    {
      && Valid() && AtCall() && schLock.lock.lockval == 0
      && |first| == |next| && NoTwoStopped(threads, links) && k <= |links| && (k > 0 ==> threads[links[k - 1]].status.Runnable?)
      && Chained(first, prescheduler, links) && Distinct(links) && prescheduler !in links && first[Last(prescheduler, links)] == -1
      && current == Last(prescheduler, links[..k]) && next == RunUpTo(first, threads, prescheduler, links, k)
    }

    lemma BeforeRound(links: seq<nat>)
      requires Valid() && current == prescheduler && schLock.lock.lockval == 0
      requires Chained(next, prescheduler, links) && Distinct(links) && prescheduler !in links && NoTwoStopped(threads, links)
      requires next[Last(prescheduler, links)] == -1
      ensures MidRound(next, links, 0) && Ran(threads, links, 0) == []
    {
      FreeAtCall();
      assert RunUpTo(next, threads, prescheduler, links, 0) == next;
    }

    method Turn(ghost first: seq<int>, ghost links: seq<nat>, ghost k: nat) returns (ghost further: nat)
      requires MidRound(first, links, k)
      modifies this`current, this`next, this`schLock, this`trace
      ensures current == prescheduler ==>
        Valid() && schLock.lock.lockval == 0 && AllRun(first, next, threads, prescheduler, links)
      ensures current == prescheduler ==> k <= |links| && Ran(threads, links, k) == Runnables(threads, links)
      ensures current != prescheduler ==>
        k < further <= |links| && MidRound(first, links, further) && Ran(threads, links, further) == Ran(threads, links, k) + [current]
    {
      RoundStep(first, links, k);
      NextVisited(threads, links, k);
      further := Place(threads, links, k) + 1;
      hide Runnables, Ran, LinksInRange, Locks.Inv, Locks.PhaseOf, Chained, Distinct, NoTwoStopped, RunUpTo, Successor, AllRun, Last, Place;
      var switched := Yield();
    }

    /** What a yield does in the middle of a round. */
    lemma RoundStep(first: seq<int>, links: seq<nat>, k: nat)
      requires MidRound(first, links, k)
      ensures var m := Place(threads, links, k);
        && m >= k
        && (m >= |links| ==> Successor() == prescheduler)
        && (m < |links| ==> Successor() == links[m] == Last(prescheduler, links[..m + 1]) && links[m] != prescheduler)
        && (m < |links| ==> links[m] < |threads| && threads[links[m]].status.Runnable?)
        && (m < |links| ==> next[current := -1] == RunUpTo(first, threads, prescheduler, links, m + 1))
      ensures Place(threads, links, k) >= |links| ==> AllRun(first, next[current := -1], threads, prescheduler, links)
    {
      NextToRun(first, threads, prescheduler, links, k);
      NextLinks(first, threads, prescheduler, links, k);
      InSchedule(threads, links);
      hide LinksInRange, Locks.Inv, Chained, Distinct, NoTwoStopped, RunUpTo, Last, AllRun;
    }

    lemma InSchedule(ts: seq<Entry>, links: seq<nat>)
      requires NoTwoStopped(ts, links)
      ensures forall k :: 0 <= k < |links| ==> links[k] < |ts|
    {
    }

    /** One turn of the loop in `sch_prescheduler_thread`, up to its next one: a pass under
        the scheduler lock, and then every thread that the pass chose runs once, in the
        order of the choices. */
    method Cycle(wakes: seq<bool>) returns (visited: seq<nat>)
      requires Valid() && current == prescheduler && |wakes| == |threads| && lastCycle == cycle
      requires schLock.lock.lockval == 0 && forall i :: 0 <= i < |next| ==> next[i] == -1
      modifies this
      ensures Valid() && current == prescheduler && lastCycle == cycle == (old(cycle) + 1) % 0x1_0000_0000
      ensures schLock.lock.lockval == 0 && forall i :: 0 <= i < |next| ==> next[i] == -1
      ensures var o := Pass(old(threads), wakes, current, idle, cycle, old(pref));
        threads == o.threads && pref == o.pref && visited == o.links + [prescheduler]
      ensures Awake(old(threads), wakes, threads)
    {
      hide LinksInRange, Locks.Inv, Locks.Nesting, Chained, Distinct, AllRunnable, Pass, Awake, Runnables, NoTwoStopped, Last, AtCall;
      LockFacts(0);
      LockFacts(extId[current]);
      LockStep(Locks.Take(extId[current], true, false));
      LockFacts(extId[current]);
      LockStep(Locks.Raise(extId[current]));
      LockFacts(extId[current]);
      ghost var links := Preschedule(wakes);
      LockStep(Locks.Release(extId[current]));
      LockFacts(extId[current]);
      LockStep(Locks.SwapOut(extId[current]));
      LastInside(next, prescheduler, links);
      AllAreRunnable(threads, links);
      NobodyStopped(threads, links);
      visited := Round(links);
    }

    lemma FreeAtCall()
      requires Valid() && schLock.lock.lockval == 0
      ensures AtCall()
    {
      LockFacts(0);
    }
  }
}
