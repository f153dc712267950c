/** One pass of the prescheduler as a function of the thread table, and why no
    runnable thread starves. Threads are named by their index in the table. */
module SchedulePass {

  const MAX32: int := 0xFFFF_FFFF
  const MODIFIER_LIMIT: int := 128

  type U32 = x: int | 0 <= x <= 0xFFFF_FFFF

  datatype Status = Runnable | Blocked | DebugStopped | DebugBlocked | Ending | Special

  /** What a pass reads and writes of a thread. */
  datatype Entry = Entry(status: Status, priority: U32, dyn: U32, modifier: U32, cycle: U32, pid: nat)

  /** The pid that a directed yield asked for, and the pid to go back to; 0 is none. */
  datatype Preference = Preference(next: nat, back: nat)

  datatype Choice = Choice(threads: seq<Entry>, torun: nat, pref: Preference)

  // ---------- choosing one thread ----------

  /** Blocked threads whose block check succeeded become runnable. */
  function Woken(ts: seq<Entry>, wakes: seq<bool>): (r: seq<Entry>)
    requires |ts| == |wakes|
    ensures |r| == |ts|
    ensures forall i :: 0 <= i < |ts| ==> r[i] == ts[i].(status := if ts[i].status.Blocked? && wakes[i] then Runnable else ts[i].status)
  {
    seq(|ts|, i requires 0 <= i < |ts| => WokenEntry(ts[i], wakes[i]))
  }

  function WokenEntry(e: Entry, wake: bool): Entry {
    if e.status.Blocked? && wake then e.(status := Runnable) else e
  }

  predicate HasRunnable(ts: seq<Entry>) {
    exists i :: 0 <= i < |ts| && ts[i].status.Runnable?
  }

  /** The smallest dynamic priority of a runnable thread. */
  function MinDyn(ts: seq<Entry>): (m: U32)
    ensures forall i :: 0 <= i < |ts| && ts[i].status.Runnable? ==> m <= ts[i].dyn
  {
    if ts == [] then MAX32
    else
      var rest := MinDyn(ts[..|ts| - 1]);
      var e := ts[|ts| - 1];
      assert forall i :: 0 <= i < |ts| - 1 ==> ts[i] == ts[..|ts| - 1][i];
      if e.status.Runnable? && e.dyn < rest then e.dyn else rest
  }

  lemma {:induction false} MinDynReached(ts: seq<Entry>) returns (i: nat)
    requires HasRunnable(ts)
    ensures i < |ts| && ts[i].status.Runnable? && ts[i].dyn == MinDyn(ts)
  {
    var e := ts[|ts| - 1];
    var init := ts[..|ts| - 1];
    if e.status.Runnable? && e.dyn == MinDyn(ts) {
      i := |ts| - 1;
    } else {
      var k :| 0 <= k < |ts| && ts[k].status.Runnable?;
      if k == |ts| - 1 && !HasRunnable(init) {
        NoRunnableMin(init);
        assert false;
      }
      assert k < |ts| - 1 ==> init[k].status.Runnable?;
      i := MinDynReached(init);
    }
  }

  lemma {:induction false} NoRunnableMin(ts: seq<Entry>)
    requires !HasRunnable(ts)
    ensures MinDyn(ts) == MAX32
  {
    if ts != [] {
      var init := ts[..|ts| - 1];
      assert forall k :: 0 <= k < |init| ==> init[k] == ts[k];
      NoRunnableMin(init);
      assert !ts[|ts| - 1].status.Runnable?;
    }
  }

  /** The last runnable thread of the wanted process; every hit moves on to the
      process to go back to, and then to none. */
  function Preferred(ts: seq<Entry>, n: nat, found: int, pref: Preference): (r: (int, Preference))
    requires n <= |ts|
    ensures r.0 == found || (n <= r.0 < |ts| && ts[r.0].status.Runnable?)
    decreases |ts| - n
  {
    if n == |ts| then (found, pref)
    else if ts[n].status.Runnable? && ts[n].pid == pref.next then
      Preferred(ts, n + 1, n, Preference(pref.back, 0))
    else Preferred(ts, n + 1, found, pref)
  }

  /** Subtracting the minimum, and the fading of the load modifier. */
  function Aged(e: Entry, min: U32, isCurrent: bool): Entry
    requires e.status.Runnable? ==> min <= e.dyn
  {
    var a := if e.status.Runnable? then e.(dyn := e.dyn - min) else e;
    if a.status.Runnable? && !isCurrent && a.dyn == 0 then a
    else if a.modifier > 0 then a.(modifier := a.modifier - 1) else a
  }

  function AgedAll(ts: seq<Entry>, min: U32, current: nat): (r: seq<Entry>)
    requires forall i :: 0 <= i < |ts| && ts[i].status.Runnable? ==> min <= ts[i].dyn
    ensures |r| == |ts|
  {
    seq(|ts|, i requires 0 <= i < |ts| => Aged(ts[i], min, i == current))
  }

  predicate Due(ts: seq<Entry>, i: nat, current: nat)
    requires i < |ts|
  {
    ts[i].status.Runnable? && i != current && ts[i].dyn == 0
  }

  /** The last thread that is due, or -1. */
  function LastDue(ts: seq<Entry>, n: nat, current: nat): (r: int)
    requires n <= |ts|
    ensures -1 <= r < n
    ensures r >= 0 ==> Due(ts, r, current)
    ensures forall i :: r < i < n ==> !Due(ts, i, current)
  {
    if n == 0 then -1
    else if Due(ts, n - 1, current) then n - 1
    else LastDue(ts, n - 1, current)
  }

  function Loaded(e: Entry): Entry {
    if e.modifier < MODIFIER_LIMIT then e.(modifier := e.modifier + 1) else e
  }

  /** `sch_find_thread` after the wake-ups, when some thread is runnable. */
  function Find(ts: seq<Entry>, current: nat, pref: Preference): (c: Choice)
    requires current < |ts| && HasRunnable(ts)
    ensures |c.threads| == |ts| && c.torun < |ts|
  {
    var directed := if pref.next != 0 then Preferred(ts, 0, -1, pref) else (-1, pref);
    if directed.0 >= 0 then
      Choice(ts[directed.0 := Loaded(ts[directed.0])], directed.0, directed.1)
    else
      var aged := AgedAll(ts, MinDyn(ts), current);
      var due := LastDue(aged, |aged|, current);
      var torun := if due >= 0 then due else current;
      Choice(aged[torun := Loaded(aged[torun])], torun, directed.1)
  }

  // ---------- one pass ----------

  /** Putting the chosen thread on the schedule: its dynamic priority restarts
      from its priority and load, without wrapping. */
  function Linked(e: Entry, cycle: U32): Entry {
    var l := Loaded(e);
    l.(dyn := if l.priority + l.modifier <= MAX32 then l.priority + l.modifier else MAX32, cycle := cycle)
  }

  ghost function NotYet(ts: seq<Entry>, cycle: U32): set<nat> {
    set i: nat | i < |ts| && ts[i].cycle != cycle
  }

  datatype Outcome = Outcome(threads: seq<Entry>, links: seq<nat>, pref: Preference)

  /** A thread that the pass refuses ends it: one already on this cycle's
      schedule, or the idle thread after any other. */
  predicate Refused(c: Choice, cycle: U32, idle: nat, links: seq<nat>)
    requires c.torun < |c.threads|
  {
    c.threads[c.torun].cycle == cycle || (links != [] && c.torun == idle)
  }

  ghost function Fill(ts: seq<Entry>, current: nat, idle: nat, cycle: U32, pref: Preference, links: seq<nat>): (o: Outcome)
    requires current < |ts|
    ensures |o.threads| == |ts|
    decreases |NotYet(ts, cycle)|
  {
    if !HasRunnable(ts) then Outcome(ts, links, pref)
    else
      var c := Find(ts, current, pref);
      if Refused(c, cycle, idle, links) then Outcome(c.threads, links, c.pref)
      else
        var next := c.threads[c.torun := Linked(c.threads[c.torun], cycle)];
        LinkShrinks(ts, current, pref, cycle);
        Fill(next, current, idle, cycle, c.pref, links + [c.torun])
  }

  /** A pass of `sch_prescheduler_thread`: wake, then fill the schedule. */
  ghost function Pass(ts: seq<Entry>, wakes: seq<bool>, current: nat, idle: nat, cycle: U32, pref: Preference): (o: Outcome)
    requires current < |ts| && |wakes| == |ts|
    ensures |o.threads| == |ts|
  {
    Fill(Woken(ts, wakes), current, idle, cycle, pref, [])
  }

  /** Same threads, with the same status, priority and process. */
  ghost predicate SameThreads(a: seq<Entry>, b: seq<Entry>) {
    |a| == |b| && forall i :: 0 <= i < |a| ==> a[i].status == b[i].status && a[i].priority == b[i].priority && a[i].pid == b[i].pid
  }

  ghost predicate SameCycles(a: seq<Entry>, b: seq<Entry>) {
    |a| == |b| && forall i :: 0 <= i < |a| ==> a[i].cycle == b[i].cycle
  }

  lemma FindKeeps(ts: seq<Entry>, current: nat, pref: Preference)
    requires current < |ts| && HasRunnable(ts)
    ensures SameThreads(Find(ts, current, pref).threads, ts)
    ensures SameCycles(Find(ts, current, pref).threads, ts)
  {
  }

  /** The chosen thread is one more thread on this cycle. */
  lemma LinkShrinks(ts: seq<Entry>, current: nat, pref: Preference, cycle: U32)
    requires current < |ts| && HasRunnable(ts)
    requires Find(ts, current, pref).threads[Find(ts, current, pref).torun].cycle != cycle
    ensures var c := Find(ts, current, pref);
      |NotYet(c.threads[c.torun := Linked(c.threads[c.torun], cycle)], cycle)| < |NotYet(ts, cycle)|
  {
    var c := Find(ts, current, pref);
    var next := c.threads[c.torun := Linked(c.threads[c.torun], cycle)];
    FindKeeps(ts, current, pref);
    hide Find;
    assert c.torun in NotYet(ts, cycle);
    assert NotYet(next, cycle) == NotYet(ts, cycle) - {c.torun};
  }

  // ---------- what a choice does to the waiting threads ----------

  ghost function Zeros(ts: seq<Entry>): set<nat> {
    set i: nat | i < |ts| && ts[i].dyn == 0
  }

  lemma SubsetSize(a: set<nat>, b: set<nat>)
    requires a <= b
    ensures |a| <= |b|
    ensures a != b ==> |a| < |b|
  {
    assert b == a + (b - a) && |b| == |a| + |b - a|;
    if a != b {
      assert b - a != {};
    }
  }

  lemma {:induction false} SizeBelow(a: set<nat>, n: nat)
    requires forall i :: i in a ==> i < n
    ensures |a| <= n
  {
    if n > 0 {
      SizeBelow(a - {n - 1}, n - 1);
      if n - 1 in a {
        assert |a| == |a - {n - 1}| + 1;
      } else {
        assert a - {n - 1} == a;
      }
    } else {
      assert a == {};
    }
  }

  /** The prescheduler runs on its own thread, which is never on a schedule. */
  predicate Prescheduling(ts: seq<Entry>, current: nat) {
    && current < |ts| && ts[current].status.Special?
    && forall i :: 0 <= i < |ts| ==> ts[i].priority >= 1
  }

  const NONE := Preference(0, 0)

  /** Without a directed yield, the chosen thread is runnable and due, and every
      runnable thread is closer to its turn by the same minimum. */
  lemma FindChooses(ts: seq<Entry>, current: nat)
    requires Prescheduling(ts, current) && HasRunnable(ts)
    ensures var c := Find(ts, current, NONE);
      && c.pref == NONE && c.threads[c.torun].status.Runnable? && c.threads[c.torun].dyn == 0
      && ts[c.torun].dyn == MinDyn(ts)
      && forall i :: 0 <= i < |ts| ==>
           c.threads[i].dyn == if ts[i].status.Runnable? then ts[i].dyn - MinDyn(ts) else ts[i].dyn
  {
    var k := MinDynReached(ts);
    var aged := AgedAll(ts, MinDyn(ts), current);
    assert aged[k] == Aged(ts[k], MinDyn(ts), false);
    assert Due(aged, k, current);
  }

  /** The load of the chosen thread grows by one up to its limit, that of the others with
      the smallest dynamic priority stays, and everybody else's falls by one. */
  lemma FindFades(ts: seq<Entry>, current: nat, i: nat)
    requires Prescheduling(ts, current) && HasRunnable(ts) && i < |ts|
    ensures var c := Find(ts, current, NONE); var m := ts[i].modifier;
      c.threads[i].modifier == if i == c.torun then (if m < 128 then m + 1 else m)
                               else if ts[i].status.Runnable? && ts[i].dyn == MinDyn(ts) then m
                               else if m > 0 then m - 1 else 0
  {
    FindChooses(ts, current);
    var aged := AgedAll(ts, MinDyn(ts), current);
    assert aged[i] == Aged(ts[i], MinDyn(ts), i == current);
  }

  /** Of the threads with the smallest dynamic priority it is the last in the table. */
  lemma FindLast(ts: seq<Entry>, current: nat, i: nat)
    requires Prescheduling(ts, current) && HasRunnable(ts) && Find(ts, current, NONE).torun < i < |ts| && ts[i].status.Runnable?
    ensures ts[i].dyn > MinDyn(ts)
  {
    FindChooses(ts, current);
    var aged := AgedAll(ts, MinDyn(ts), current);
    assert aged[i] == Aged(ts[i], MinDyn(ts), false);
    hide MinDyn, HasRunnable, AgedAll, Prescheduling;
    assert !Due(aged, i, current);
  }

  /** The chosen thread is runnable, and no thread changes but in load and distance. */
  lemma FindValid(ts: seq<Entry>, current: nat, pref: Preference)
    requires Prescheduling(ts, current) && HasRunnable(ts)
    ensures var c := Find(ts, current, pref);
      Prescheduling(c.threads, current) && SameCycles(c.threads, ts) && ts[c.torun].status.Runnable?
  {
    FindKeeps(ts, current, pref);
    var k := MinDynReached(ts);
    var aged := AgedAll(ts, MinDyn(ts), current);
    assert aged[k] == Aged(ts[k], MinDyn(ts), false);
    assert Due(aged, k, current);
  }

  /** A thread put on the schedule starts again at its priority plus its load, which
      grew by two, up to its limit; nobody else's load grew. */
  lemma StepRestarts(ts: seq<Entry>, current: nat, cycle: U32, pref: Preference)
    requires Prescheduling(ts, current) && HasRunnable(ts)
    ensures var n := Step(ts, current, cycle, pref); var p := Find(ts, current, pref).torun;
      && n[p].dyn == (if n[p].priority + n[p].modifier <= 0xFFFF_FFFF then n[p].priority + n[p].modifier else 0xFFFF_FFFF)
      && n[p].modifier == (if ts[p].modifier >= 128 then ts[p].modifier else if ts[p].modifier == 127 then 128 else ts[p].modifier + 2)
      && forall i :: 0 <= i < |ts| && i != p ==> n[i].modifier <= ts[i].modifier
  {
    FindValid(ts, current, pref);
  }

  // ---------- directed yields ----------

  /** Thread `i` is a runnable thread of process `pid`. */
  predicate Hit(ts: seq<Entry>, i: nat, pid: nat)
    requires i < |ts|
  {
    ts[i].status.Runnable? && ts[i].pid == pid
  }

  lemma {:induction false} NoHit(ts: seq<Entry>, n: nat, found: int, pref: Preference)
    requires n <= |ts| && forall i :: n <= i < |ts| ==> !Hit(ts, i, pref.next)
    ensures Preferred(ts, n, found, pref) == (found, pref)
    decreases |ts| - n
  {
    if n < |ts| {
      assert !Hit(ts, n, pref.next);
      NoHit(ts, n + 1, found, pref);
    }
  }

  lemma {:induction false} UpToHit(ts: seq<Entry>, n: nat, first: nat, pref: Preference)
    requires n <= first < |ts| && Hit(ts, first, pref.next) && forall i :: n <= i < first ==> !Hit(ts, i, pref.next)
    ensures Preferred(ts, n, -1, pref) == Preferred(ts, first + 1, first, Preference(pref.back, 0))
    decreases first - n
  {
    if n < first {
      assert !Hit(ts, n, pref.next);
      UpToHit(ts, n + 1, first, pref);
    }
  }

  lemma {:induction false} BeyondHit(ts: seq<Entry>, n: nat, found: nat, pref: Preference)
    requires found < n <= |ts|
    ensures Preferred(ts, n, found, pref).0 == found <==> forall i :: n <= i < |ts| ==> !Hit(ts, i, pref.next)
    decreases |ts| - n
  {
    if n < |ts| && !Hit(ts, n, pref.next) {
      BeyondHit(ts, n + 1, found, pref);
    }
  }

  /** A directed yield reaches the first runnable thread of the process that it names
      exactly if no runnable thread of the process to go back to, which is process 0 if
      none was named, comes behind that one in the table. */
  lemma DirectedChoice(ts: seq<Entry>, current: nat, pref: Preference, first: nat)
    requires current < |ts| && pref.next != 0 && HasRunnable(ts)
    requires first < |ts| && Hit(ts, first, pref.next) && forall i :: 0 <= i < first ==> !Hit(ts, i, pref.next)
    ensures var c := Find(ts, current, pref);
      && (c.torun == first <==> forall i :: first < i < |ts| ==> !Hit(ts, i, pref.back))
      && (c.torun == first ==> c.pref == Preference(pref.back, 0))
      && c.torun >= first && ts[c.torun].status.Runnable? && forall i :: 0 <= i < |ts| && i != c.torun ==> c.threads[i] == ts[i]
  {
    hide HasRunnable;
    UpToHit(ts, 0, first, pref);
    BeyondHit(ts, first + 1, first, Preference(pref.back, 0));
    if forall i :: first < i < |ts| ==> !Hit(ts, i, pref.back) {
      NoHit(ts, first + 1, first, Preference(pref.back, 0));
    }
  }

  /** If that process has no runnable thread the choice is made as without the yield,
      which stays asked for. */
  lemma NobodyToYieldTo(ts: seq<Entry>, current: nat, pref: Preference)
    requires current < |ts| && HasRunnable(ts) && forall i :: 0 <= i < |ts| ==> !Hit(ts, i, pref.next)
    ensures Find(ts, current, pref) == Find(ts, current, NONE).(pref := pref)
  {
    hide HasRunnable;
    NoHit(ts, 0, -1, pref);
  }

  /** The measure: a thread's own dynamic priority first, then how many threads
      are at zero. */
  ghost function Wait(ts: seq<Entry>, t: nat): nat
    requires t < |ts|
  {
    ts[t].dyn * (|ts| + 1) + |Zeros(ts)|
  }

  lemma ZerosBelow(ts: seq<Entry>)
    ensures |Zeros(ts)| <= |ts|
  {
    SizeBelow(Zeros(ts), |ts|);
  }

  lemma WaitSmaller(a: seq<Entry>, b: seq<Entry>, t: nat)
    requires |a| == |b| && t < |a|
    requires b[t].dyn < a[t].dyn || (b[t].dyn == a[t].dyn && Zeros(b) <= Zeros(a))
    ensures Wait(b, t) <= Wait(a, t)
    ensures b[t].dyn < a[t].dyn || Zeros(b) != Zeros(a) ==> Wait(b, t) < Wait(a, t)
  {
    hide Zeros;
    if b[t].dyn < a[t].dyn {
      ZerosBelow(b);
      assert (b[t].dyn + 1) * (|a| + 1) <= a[t].dyn * (|a| + 1);
    } else {
      SubsetSize(Zeros(b), Zeros(a));
    }
  }

  lemma FindWait(ts: seq<Entry>, current: nat, t: nat)
    requires Prescheduling(ts, current) && t < |ts| && ts[t].status.Runnable? && HasRunnable(ts)
    ensures Wait(Find(ts, current, NONE).threads, t) <= Wait(ts, t)
  {
    FindChooses(ts, current);
    var b := Find(ts, current, NONE).threads;
    if MinDyn(ts) == 0 {
      assert Zeros(b) == Zeros(ts);
    }
    WaitSmaller(ts, b, t);
  }

  /** Putting another thread on the schedule brings `t` strictly closer. */
  lemma LinkWait(ts: seq<Entry>, current: nat, t: nat, cycle: U32)
    requires Prescheduling(ts, current) && t < |ts| && ts[t].status.Runnable? && HasRunnable(ts)
    requires Find(ts, current, NONE).torun != t
    ensures var c := Find(ts, current, NONE);
      Wait(c.threads[c.torun := Linked(c.threads[c.torun], cycle)], t) < Wait(ts, t)
  {
    FindChooses(ts, current);
    FindWait(ts, current, t);
    var c := Find(ts, current, NONE);
    var b := c.threads[c.torun := Linked(c.threads[c.torun], cycle)];
    FindKeeps(ts, current, NONE);
    assert b[c.torun].dyn > 0;
    assert c.torun in Zeros(c.threads) && c.torun !in Zeros(b);
    assert Zeros(b) <= Zeros(c.threads);
    WaitSmaller(c.threads, b, t);
  }

  // ---------- what a pass does ----------

  ghost predicate Distinct(links: seq<nat>) {
    forall i, j :: 0 <= i < j < |links| ==> links[i] != links[j]
  }

  ghost predicate OnCycle(ts: seq<Entry>, links: seq<nat>, cycle: U32) {
    forall i :: 0 <= i < |links| ==> links[i] < |ts| && ts[links[i]].cycle == cycle
  }

  /** The table after one choice has been put on the schedule. */
  ghost function Step(ts: seq<Entry>, current: nat, cycle: U32, pref: Preference): (r: seq<Entry>)
    requires current < |ts| && HasRunnable(ts)
    ensures |r| == |ts|
  {
    var c := Find(ts, current, pref);
    c.threads[c.torun := Linked(c.threads[c.torun], cycle)]
  }

  lemma StepKeeps(ts: seq<Entry>, current: nat, cycle: U32, pref: Preference)
    requires current < |ts| && HasRunnable(ts)
    ensures var n := Step(ts, current, cycle, pref); var p := Find(ts, current, pref).torun;
      && SameThreads(n, ts) && n[p].cycle == cycle
      && (forall i :: 0 <= i < |ts| && i != p ==> n[i].cycle == ts[i].cycle)
  {
    FindKeeps(ts, current, pref);
  }

  ghost predicate OthersKeepCycle(a: seq<Entry>, b: seq<Entry>, links: seq<nat>) {
    |a| == |b| && forall i :: 0 <= i < |a| && i !in links ==> a[i].cycle == b[i].cycle
  }

  lemma LinksGrow(ts: seq<Entry>, n: seq<Entry>, links: seq<nat>, p: nat, cycle: U32)
    requires |n| == |ts| && p < |ts| && ts[p].cycle != cycle && n[p].cycle == cycle
    requires forall i :: 0 <= i < |ts| && i != p ==> n[i].cycle == ts[i].cycle
    requires Distinct(links) && OnCycle(ts, links, cycle)
    ensures Distinct(links + [p]) && OnCycle(n, links + [p], cycle)
  {
  }

  lemma LinksSettle(ts: seq<Entry>, n: seq<Entry>, o: Outcome, links: seq<nat>, p: nat)
    requires |n| == |ts| == |o.threads| && links + [p] <= o.links
    requires forall i :: 0 <= i < |ts| && i != p ==> n[i].cycle == ts[i].cycle
    requires OthersKeepCycle(o.threads, n, o.links)
    ensures links <= o.links && o.links[|links|] == p && p in o.links && OthersKeepCycle(o.threads, ts, o.links)
  {
    assert o.links[|links|] == p;
    assert links <= links + [p];
  }

  /** Every pass, directed yields included, links pairwise distinct threads, leaves
      everyone else's cycle alone and changes no status. */
  lemma {:induction false} FillLinks(ts: seq<Entry>, current: nat, idle: nat, cycle: U32, pref: Preference, links: seq<nat>)
    requires current < |ts| && Distinct(links) && OnCycle(ts, links, cycle)
    ensures var o := Fill(ts, current, idle, cycle, pref, links);
      && Distinct(o.links) && OnCycle(o.threads, o.links, cycle) && links <= o.links
      && SameThreads(o.threads, ts) && OthersKeepCycle(o.threads, ts, o.links)
    decreases |NotYet(ts, cycle)|
  {
    if HasRunnable(ts) {
      var c := Find(ts, current, pref);
      FindKeeps(ts, current, pref);
      if !Refused(c, cycle, idle, links) {
        StepKeeps(ts, current, cycle, pref);
        LinkShrinks(ts, current, pref, cycle);
        var n := Step(ts, current, cycle, pref);
        var o := Fill(n, current, idle, cycle, c.pref, links + [c.torun]);
        assert o == Fill(ts, current, idle, cycle, pref, links);
        LinksGrow(ts, n, links, c.torun, cycle);
        hide Find, Fill, Step, Refused, Distinct, OnCycle;
        FillLinks(n, current, idle, cycle, c.pref, links + [c.torun]);
        LinksSettle(ts, n, o, links, c.torun);
      }
    }
  }

  /** A pass that leaves `t` out does not push it back, and brings it strictly
      closer if it linked anyone at all. */
  lemma {:induction false} FillWait(ts: seq<Entry>, current: nat, idle: nat, cycle: U32, links: seq<nat>, t: nat)
    requires Prescheduling(ts, current) && t < |ts| && ts[t].status.Runnable?
    requires t !in Fill(ts, current, idle, cycle, NONE, links).links
    requires Distinct(links) && OnCycle(ts, links, cycle)
    ensures var o := Fill(ts, current, idle, cycle, NONE, links);
      && o.pref == NONE && Wait(o.threads, t) <= Wait(ts, t)
      && (|o.links| > |links| ==> Wait(o.threads, t) < Wait(ts, t))
    decreases |NotYet(ts, cycle)|
  {
    assert HasRunnable(ts);
    var c := Find(ts, current, NONE);
    FindChooses(ts, current);
    FindWait(ts, current, t);
    FindKeeps(ts, current, NONE);
    if !Refused(c, cycle, idle, links) {
      StepKeeps(ts, current, cycle, NONE);
      LinkShrinks(ts, current, NONE, cycle);
      var n := Step(ts, current, cycle, NONE);
      var o := Fill(n, current, idle, cycle, NONE, links + [c.torun]);
      assert o == Fill(ts, current, idle, cycle, NONE, links);
      LinksGrow(ts, n, links, c.torun, cycle);
      assert c.torun != t ==> Wait(n, t) < Wait(ts, t) by {
        if c.torun != t { LinkWait(ts, current, t, cycle); }
      }
      hide Find, Fill, Step, Refused, Wait, Distinct, OnCycle;
      FillLinks(n, current, idle, cycle, NONE, links + [c.torun]);
      LinksSettle(ts, n, o, links, c.torun);
      FillWait(n, current, idle, cycle, links + [c.torun], t);
    }
  }

  /** A pass with a runnable thread links nobody only if the first thread it chose
      already carries this cycle's number. */
  lemma FillEmpty(ts: seq<Entry>, current: nat, idle: nat, cycle: U32, pref: Preference) returns (p: nat)
    requires current < |ts| && HasRunnable(ts) && Fill(ts, current, idle, cycle, pref, []).links == []
    ensures p < |ts| && ts[p].cycle == cycle
  {
    var c := Find(ts, current, pref);
    p := c.torun;
    FindKeeps(ts, current, pref);
    if c.threads[p].cycle != cycle {
      StepKeeps(ts, current, cycle, pref);
      var n := Step(ts, current, cycle, pref);
      assert Fill(ts, current, idle, cycle, pref, []) == Fill(n, current, idle, cycle, c.pref, [] + [p]);
      hide Fill, Step, Find;
      assert [] + [p] == [p];
      FillLinks(n, current, idle, cycle, c.pref, [p]);
      assert false;
    }
  }

  /** A pass goes on until no thread is runnable, or its next choice is on this cycle's
      schedule already, or is the idle thread behind others. */
  lemma {:induction false} FillEnds(ts: seq<Entry>, current: nat, idle: nat, cycle: U32, pref: Preference, links: seq<nat>)
    returns (u: seq<Entry>, q: Preference)
    requires current < |ts|
    ensures SameThreads(u, ts) && current < |u|
    ensures var o := Fill(ts, current, idle, cycle, pref, links);
      if !HasRunnable(u) then o.threads == u && o.pref == q
      else var c := Find(u, current, q);
        o.threads == c.threads && o.pref == c.pref && (c.threads[c.torun].cycle == cycle || (o.links != [] && c.torun == idle))
    decreases |NotYet(ts, cycle)|
  {
    u, q := ts, pref;
    if HasRunnable(ts) {
      var c := Find(ts, current, pref);
      if !Refused(c, cycle, idle, links) {
        StepKeeps(ts, current, cycle, pref);
        LinkShrinks(ts, current, pref, cycle);
        var n := Step(ts, current, cycle, pref);
        assert Fill(n, current, idle, cycle, c.pref, links + [c.torun]) == Fill(ts, current, idle, cycle, pref, links);
        hide Find, Fill, Step, Refused;
        u, q := FillEnds(n, current, idle, cycle, c.pref, links + [c.torun]);
      }
    }
  }

  /** The idle thread is linked first or not at all. */
  lemma {:induction false} FillIdle(ts: seq<Entry>, current: nat, idle: nat, cycle: U32, pref: Preference, links: seq<nat>)
    requires current < |ts| && Distinct(links) && OnCycle(ts, links, cycle)
    ensures var o := Fill(ts, current, idle, cycle, pref, links);
      forall k :: |links| <= k < |o.links| && k > 0 ==> o.links[k] != idle
    decreases |NotYet(ts, cycle)|
  {
    if HasRunnable(ts) {
      var c := Find(ts, current, pref);
      FindKeeps(ts, current, pref);
      if !Refused(c, cycle, idle, links) {
        StepKeeps(ts, current, cycle, pref);
        LinkShrinks(ts, current, pref, cycle);
        var n := Step(ts, current, cycle, pref);
        var o := Fill(n, current, idle, cycle, c.pref, links + [c.torun]);
        assert o == Fill(ts, current, idle, cycle, pref, links);
        assert links != [] ==> c.torun != idle;
        LinksGrow(ts, n, links, c.torun, cycle);
        hide Find, Fill, Step, Refused, Distinct, OnCycle;
        FillLinks(n, current, idle, cycle, c.pref, links + [c.torun]);
        LinksSettle(ts, n, o, links, c.torun);
        FillIdle(n, current, idle, cycle, c.pref, links + [c.torun]);
      }
    }
  }
}
