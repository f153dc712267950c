/** Starvation freedom of the prescheduler over whole runs: whatever the other
    threads do between passes, a thread that stays runnable is put on a schedule
    within a bound computed from its first state. The cycle counter is 32 bits wide
    and wraps. */
module Starvation {
  import opened SchedulePass

  /** The table as a pass finds it, and which block checks succeed in that pass. */
  datatype Round = Round(threads: seq<Entry>, wakes: seq<bool>)

  /** The fixed parts of a run. `first` is the cycle number of the first pass. */
  datatype Setting = Setting(n: nat, current: nat, idle: nat, first: U32, t: nat)

  function Cycle(s: Setting, k: nat): U32 {
    (s.first + k) % 0x1_0000_0000
  }

  /** In this pass thread `t` is runnable, already or because its block check succeeds. */
  ghost predicate GoodRound(s: Setting, r: Round) {
    && |r.threads| == |r.wakes| == s.n && Prescheduling(r.threads, s.current)
    && s.t < s.n && (r.threads[s.t].status.Runnable? || (r.threads[s.t].status.Blocked? && r.wakes[s.t]))
  }

  ghost function Result(s: Setting, run: seq<Round>, k: nat): (o: Outcome)
    requires k < |run| && GoodRound(s, run[k])
    ensures |o.threads| == s.n
  {
    Pass(run[k].threads, run[k].wakes, s.current, s.idle, Cycle(s, k), NONE)
  }

  /** Between passes, statuses, priorities and processes may change in any way that
      leaves `t` runnable; only a pass changes a dynamic priority or a cycle. */
  ghost predicate Between(a: seq<Entry>, b: seq<Entry>) {
    |a| == |b| && forall i :: 0 <= i < |a| ==> a[i].dyn == b[i].dyn && a[i].cycle == b[i].cycle
  }

  /** A run of at most 2^32 - 1 threads in which `t` stays runnable and nobody
      yields to a chosen process. */
  ghost predicate IsRun(s: Setting, run: seq<Round>) {
    && s.n < 0x1_0000_0000
    && (forall k :: 0 <= k < |run| ==> GoodRound(s, run[k]))
    && (forall k :: 0 <= k < |run| - 1 ==> Between(Result(s, run, k).threads, run[k + 1].threads))
  }

  lemma BetweenWait(a: seq<Entry>, b: seq<Entry>, t: nat)
    requires Between(a, b) && t < |a|
    ensures Wait(a, t) == Wait(b, t)
  {
    assert Zeros(a) == Zeros(b);
  }

  lemma PassKeepsGoing(s: Setting, run: seq<Round>, k: nat)
    requires IsRun(s, run) && k < |run| && s.t !in Result(s, run, k).links
    ensures var o := Result(s, run, k);
      && Wait(o.threads, s.t) <= Wait(run[k].threads, s.t)
      && (o.links != [] ==> Wait(o.threads, s.t) < Wait(run[k].threads, s.t))
  {
    var woken := Woken(run[k].threads, run[k].wakes);
    assert Between(woken, run[k].threads);
    BetweenWait(woken, run[k].threads, s.t);
    assert woken[s.t] == WokenEntry(run[k].threads[s.t], run[k].wakes[s.t]);
    assert woken[s.current] == WokenEntry(run[k].threads[s.current], run[k].wakes[s.current]);
    assert Prescheduling(woken, s.current);
    FillWait(woken, s.current, s.idle, Cycle(s, k), [], s.t);
  }

  /** A pass links nobody only if its first choice still carries the current cycle
      number from an earlier lap of the counter; then no cycle changes. */
  lemma EmptyPass(s: Setting, run: seq<Round>, k: nat) returns (p: nat)
    requires IsRun(s, run) && k < |run| && Result(s, run, k).links == []
    ensures p < s.n && run[k].threads[p].cycle == Cycle(s, k)
    ensures SameCycles(Result(s, run, k).threads, run[k].threads)
  {
    var woken := Woken(run[k].threads, run[k].wakes);
    var cycle := Cycle(s, k);
    assert woken[s.t] == WokenEntry(run[k].threads[s.t], run[k].wakes[s.t]);
    assert HasRunnable(woken);
    p := FillEmpty(woken, s.current, s.idle, cycle, NONE);
    FillLinks(woken, s.current, s.idle, cycle, NONE, []);
  }

  // ---------- empty passes cannot go on ----------

  /** How many passes after number `base` the cycle counter reads `c`. */
  function Ahead(c: U32, base: U32): nat {
    (c - base) % 0x1_0000_0000
  }

  ghost function Within(ts: seq<Entry>, base: U32, r: nat): set<nat> {
    set i: nat | i < |ts| && Ahead(ts[i].cycle, base) <= r
  }

  lemma AheadNext(c: U32, s: Setting, k: nat)
    ensures Ahead(c, Cycle(s, k + 1)) < 0xFFFF_FFFF ==> Ahead(c, Cycle(s, k)) == Ahead(c, Cycle(s, k + 1)) + 1
  {
    hide Ahead, Cycle;
    CycleNext(s, k);
    AheadIs(c, Cycle(s, k));
    AheadIs(c, Cycle(s, k + 1));
  }

  lemma CycleNext(s: Setting, k: nat)
    ensures Cycle(s, k + 1) == if Cycle(s, k) == 0xFFFF_FFFF then 0 else Cycle(s, k) + 1
  {
  }

  lemma AheadIs(c: U32, base: U32)
    ensures Ahead(c, base) == if c >= base then c - base else c - base + 0x1_0000_0000
  {
  }

  /** Who is within reach after an empty pass was so before, and is not the thread that
      was on its cycle. */
  lemma WithinLater(s: Setting, run: seq<Round>, k: nat, r: nat, p: nat)
    requires IsRun(s, run) && k + 1 < |run| && 1 <= r <= 0xFFFF_FFFF
    requires Result(s, run, k).links == [] && p < s.n && run[k].threads[p].cycle == Cycle(s, k)
    ensures var later := Within(run[k + 1].threads, Cycle(s, k + 1), r - 1);
      p !in later && later <= Within(run[k].threads, Cycle(s, k), r)
  {
    var q := EmptyPass(s, run, k);
    var later := Within(run[k + 1].threads, Cycle(s, k + 1), r - 1);
    forall i | i in later
      ensures i in Within(run[k].threads, Cycle(s, k), r) && i != p
    {
      AheadNext(run[k].threads[i].cycle, s, k);
    }
  }

  /** Consecutive empty passes each need a different thread. */
  lemma {:induction false} EmptyPassesUseThreads(s: Setting, run: seq<Round>, k: nat, r: nat)
    requires IsRun(s, run) && k + r < |run| && r <= 0xFFFF_FFFF
    requires forall j :: k <= j <= k + r ==> Result(s, run, j).links == []
    ensures |Within(run[k].threads, Cycle(s, k), r)| > r
    decreases r
  {
    hide Pass, Between, Prescheduling, Cycle;
    var p := EmptyPass(s, run, k);
    var here := Within(run[k].threads, Cycle(s, k), r);
    AheadIs(run[k].threads[p].cycle, Cycle(s, k));
    assert p in here;
    if r == 0 {
      SubsetSize({p}, here);
    } else {
      EmptyPassesUseThreads(s, run, k + 1, r - 1);
      var later := Within(run[k + 1].threads, Cycle(s, k + 1), r - 1);
      WithinLater(s, run, k, r, p);
      SubsetSize(later + {p}, here);
    }
  }

  /** So among any `n + 1` consecutive passes one links somebody. */
  lemma SomePassLinks(s: Setting, run: seq<Round>, k: nat) returns (j: nat)
    requires IsRun(s, run) && k + s.n < |run|
    ensures k <= j <= k + s.n && Result(s, run, j).links != []
  {
    if forall j :: k <= j <= k + s.n ==> Result(s, run, j).links == [] {
      EmptyPassesUseThreads(s, run, k, s.n);
      SizeBelow(Within(run[k].threads, Cycle(s, k), s.n), s.n);
      assert false;
    }
    j :| k <= j <= k + s.n && Result(s, run, j).links != [];
  }

  // ---------- the bound ----------

  lemma {:induction false} WaitNeverGrows(s: Setting, run: seq<Round>, i: nat, j: nat)
    requires IsRun(s, run) && i <= j < |run|
    requires forall k :: i <= k < |run| ==> s.t !in Result(s, run, k).links
    ensures Wait(run[j].threads, s.t) <= Wait(run[i].threads, s.t)
    decreases j - i
  {
    if i < j {
      PassKeepsGoing(s, run, i);
      BetweenWait(Result(s, run, i).threads, run[i + 1].threads, s.t);
      WaitNeverGrows(s, run, i + 1, j);
    }
  }

  ghost function Bound(s: Setting, ts: seq<Entry>): nat
    requires s.t < |ts|
  {
    (Wait(ts, s.t) + 1) * (s.n + 1)
  }

  lemma Scale(a: nat, b: nat, n: nat)
    requires a < b
    ensures (a + 1) * (n + 1) + (n + 1) <= (b + 1) * (n + 1)
  {
    var d: nat, m := b - a - 1, n + 1;
    calc {
      (b + 1) * m;
      (a + 1 + 1 + d) * m;
      (a + 1) * m + m + d * m;
    }
  }

  lemma {:induction false} LeftOutAtMost(s: Setting, run: seq<Round>, i: nat)
    requires IsRun(s, run) && i < |run|
    requires forall k :: i <= k < |run| ==> s.t !in Result(s, run, k).links
    ensures |run| - i <= Bound(s, run[i].threads)
    decreases |run| - i
  {
    hide Result, Wait, Cycle;
    if |run| - i > s.n + 1 {
      var j := SomePassLinks(s, run, i);
      WaitNeverGrows(s, run, i, j);
      PassKeepsGoing(s, run, j);
      BetweenWait(Result(s, run, j).threads, run[j + 1].threads, s.t);
      LeftOutAtMost(s, run, j + 1);
      Scale(Wait(run[j + 1].threads, s.t), Wait(run[i].threads, s.t), s.n);
    } else {
      Scale(0, Wait(run[i].threads, s.t) + 1, s.n);
    }
  }

  /** Starvation freedom, with the number of passes it takes. */
  lemma NoStarvation(s: Setting, run: seq<Round>)
    requires IsRun(s, run) && run != [] && |run| > Bound(s, run[0].threads)
    ensures exists k :: 0 <= k < |run| && s.t in Result(s, run, k).links
  {
    if forall k :: 0 <= k < |run| ==> s.t !in Result(s, run, k).links {
      LeftOutAtMost(s, run, 0);
      assert false;
    }
  }

  /** A blocked thread whose block check succeeds in some pass, and that stays runnable
      from then on, is linked within the bound, counted from that pass. */
  lemma WokenIsLinked(s: Setting, run: seq<Round>)
    requires run != [] && s.n < 0x1_0000_0000 && s.t < s.n && s.current < s.n
    requires forall k :: 0 <= k < |run| ==> |run[k].threads| == |run[k].wakes| == s.n && Prescheduling(run[k].threads, s.current)
    requires run[0].threads[s.t].status.Blocked? && run[0].wakes[s.t]
    requires forall k :: 0 < k < |run| ==> run[k].threads[s.t].status.Runnable?
    requires forall k :: 0 <= k < |run| - 1 ==>
      Between(Pass(run[k].threads, run[k].wakes, s.current, s.idle, Cycle(s, k), NONE).threads, run[k + 1].threads)
    requires |run| > Bound(s, run[0].threads)
    ensures exists k :: 0 <= k < |run| && s.t in Pass(run[k].threads, run[k].wakes, s.current, s.idle, Cycle(s, k), NONE).links
  {
    hide Pass, Between, Prescheduling, Cycle, Bound;
    assert forall k :: 0 <= k < |run| ==> GoodRound(s, run[k]);
    assert forall k :: 0 <= k < |run| - 1 ==> Between(Result(s, run, k).threads, run[k + 1].threads);
    NoStarvation(s, run);
  }
}
