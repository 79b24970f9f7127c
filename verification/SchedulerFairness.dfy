/** How long a READY process can wait to be dispatched, over every run of the scheduler. */
module SchedulerFairness {
  import opened Bytes
  import opened SchedulerSpec
  import opened SchedulerSafety

  // ----- The measure: the process's rank in the ring, then the distance from the current process to it -----

  ghost predicate Waiting(s: System, p: nat) {
    Safe(s) && p < MAX_PROCESSES && s.procs[p].state.Ready?
  }

  ghost function Distance(rank: nat, from: nat): int {
    if from < rank then rank - from else rank + MAX_PROCESSES - from
  }

  ghost function Measure(ring: seq<nat>, p: nat, current: nat): int
    requires p in ring && current in ring
  {
    IndexOf(ring, p) * 16 + Distance(IndexOf(ring, p), IndexOf(ring, current))
  }

  ghost function Delay(s: System, p: nat): int
    requires Waiting(s, p)
  {
    Measure(s.ring, p, s.current)
  }

  lemma RingFits(s: System)
    requires RingOk(s)
    ensures |s.ring| <= MAX_PROCESSES
  {
    DistinctBelow(s.ring, MAX_PROCESSES);
  }

  lemma {:induction false} DistinctBelow(ring: seq<nat>, n: nat)
    requires NoDup(ring) && forall k :: 0 <= k < |ring| ==> ring[k] < n
    ensures |ring| <= n
  {
    if ring != [] {
      assert ring[0] < n;
      var rest := Without(ring, n - 1);
      WithoutKeeps(ring, n - 1);
      forall k | 0 <= k < |rest| ensures rest[k] < n - 1 {
        assert rest[k] in ring;
      }
      DistinctBelow(rest, n - 1);
    }
  }

  lemma DelayBounded(s: System, p: nat)
    requires Waiting(s, p)
    ensures 0 < Delay(s, p) < 256
  {
    RingFits(s);
    IndexOfUnique(s.ring, IndexOf(s.ring, p));
  }

  // ----- schedule -----

  ghost predicate OnTheWay(d: nat, i: nat, c: nat) {
    if c < i then c < d <= i else d > c || d <= i
  }

  /** A READY process is either dispatched or the one dispatched lies between the current process and it. */
  lemma NextBefore(s: System, p: nat) returns (d: nat)
    requires InTable(s) && s.current in s.ring && p in s.ring && p != s.current && s.procs[p].state.Ready?
    ensures d < |s.ring| && s.ring[d] == Chosen(s)
    ensures OnTheWay(d, IndexOf(s.ring, p), IndexOf(s.ring, s.current))
  {
    var n, i, c := |s.ring|, IndexOf(s.ring, p), IndexOf(s.ring, s.current);
    var k := if c < i then i - c - 1 else n - c - 1 + i;
    assert Turns(s)[k] == p by { TurnsAt(s, k); }
    forall m | 0 <= m < |Turns(s)| ensures Turns(s)[m] < MAX_PROCESSES {
      TurnsAt(s, m);
    }
    var j := FirstReadyAt(s.procs, Turns(s), k);
    TurnsAt(s, j);
    d := Wrapped(c + 1 + j, n);
  }

  lemma ScheduleCloser(s: System, now: nat, p: nat)
    requires Waiting(s, p) && Waiting(Schedule(s, now), p)
    ensures Delay(Schedule(s, now), p) < Delay(s, p)
  {
    var w, r := Wake(s, now), Schedule(s, now);
    RingFits(s);
    assert w.procs[p].state.Ready? && w.current == s.current && w.ring == s.ring && r.ring == s.ring;
    var d := NextBefore(w, p);
    IndexOfUnique(s.ring, d);
    assert r.current == s.ring[d];
    assert d != IndexOf(s.ring, p);
  }

  /** When the caller sits at the tail or has left the ring, idle is next. */
  lemma IdleNext(s: System, now: nat)
    requires Pending(s) && s.current != IDLE
    requires s.current in s.ring ==> s.ring[|s.ring| - 1] == s.current
    ensures Schedule(s, now).current == IDLE
  {
    var w := Wake(s, now);
    if s.current in s.ring { IndexOfUnique(s.ring, |s.ring| - 1); }
    TurnsAt(w, 0);
  }

  ghost function Shifted(k: nat, gone: nat): nat
    requires k != gone
  {
    if gone < k then k - 1 else k
  }

  lemma WithoutIndex(ring: seq<nat>, x: nat, y: nat)
    requires NoDup(ring) && x in ring && y in ring && x != y
    ensures y in Without(ring, x) && IndexOf(ring, y) != IndexOf(ring, x)
    ensures IndexOf(Without(ring, x), y) == Shifted(IndexOf(ring, y), IndexOf(ring, x))
  {
    WithoutKeeps(ring, x);
    var k := Shifted(IndexOf(ring, y), IndexOf(ring, x));
    assert Without(ring, x)[k] == y;
    IndexOfUnique(Without(ring, x), k);
  }

  lemma AppendIndex(ring: seq<nat>, x: nat, y: nat)
    requires NoDup(ring + [x]) && y in ring
    ensures IndexOf(ring + [x], y) == IndexOf(ring, y)
  {
    assert (ring + [x])[IndexOf(ring, y)] == y;
    IndexOfUnique(ring + [x], IndexOf(ring, y));
  }

  /** Leaving the head of the line behind: the rank did not grow, and the search restarts at idle. */
  lemma RestartCloser(s: System, left: System, now: nat, p: nat)
    requires Waiting(s, p) && s.current != IDLE && Pending(left) && left.current == s.current
    requires left.current in left.ring ==> left.ring[|left.ring| - 1] == left.current
    requires p in left.ring && IndexOf(left.ring, p) == Shifted(IndexOf(s.ring, p), IndexOf(s.ring, s.current))
    requires Waiting(Schedule(left, now), p)
    ensures Delay(Schedule(left, now), p) < Delay(s, p)
  {
    var r := Schedule(left, now);
    RingFits(s);
    IdleNext(left, now);
    ScheduleKeeps(left, now);
    IndexOfUnique(r.ring, 0);
    IndexOfUnique(s.ring, 0);
    assert r.ring == left.ring;
  }

  lemma SleepCloser(s: System, wake: u64, now: nat, p: nat)
    requires Waiting(s, p) && Waiting(Schedule(Park(s, wake), now), p)
    ensures Delay(Schedule(Park(s, wake), now), p) < Delay(s, p)
  {
    if s.current == IDLE {
      ScheduleCloser(s, now, p);
    } else {
      ParkKeeps(s, wake);
      WithoutIndex(s.ring, s.current, p);
      AppendIndex(Without(s.ring, s.current), s.current, p);
      RestartCloser(s, Park(s, wake), now, p);
    }
  }

  lemma ExitCloser(s: System, now: nat, p: nat)
    requires Waiting(s, p) && Waiting(Exit(s, now), p)
    ensures Delay(Exit(s, now), p) < Delay(s, p)
  {
    if s.current == IDLE {
      ScheduleCloser(s, now, p);
    } else {
      MarkZombieKeeps(s);
      MarkZombieShape(s, s.current);
      WithoutIndex(s.ring, s.current, p);
      WithoutKeeps(s.ring, s.current);
      RestartCloser(s, MarkZombie(s, s.current), now, p);
    }
  }

  // ----- Discards -----

  /** The discarded process lies between the waiting one and the current one: the only step that sets p back. */
  ghost predicate Overtakes(s: System, e: Event, p: nat)
    requires Waiting(s, p) && Allowed(s, e)
  {
    e.DiscardProcess? && IndexOf(s.ring, p) < IndexOf(s.ring, e.proc) < IndexOf(s.ring, s.current)
  }

  lemma ShiftedMeasure(i: nat, j: nat, c: nat)
    requires i != j && j != c && i != c && i < MAX_PROCESSES && c < MAX_PROCESSES
    ensures var before, after := i * 16 + Distance(i, c), Shifted(i, j) * 16 + Distance(Shifted(i, j), Shifted(c, j));
      if i < j < c then after == before + 1 else after <= before
  {
  }

  lemma RemovalDelay(ring: seq<nat>, v: nat, p: nat, current: nat)
    requires NoDup(ring) && |ring| <= MAX_PROCESSES && p in ring && current in ring && v in ring
    requires v != p && v != current && p != current
    ensures p in Without(ring, v) && current in Without(ring, v)
    ensures var before, after := Measure(ring, p, current), Measure(Without(ring, v), p, current);
      if IndexOf(ring, p) < IndexOf(ring, v) < IndexOf(ring, current) then after == before + 1 else after <= before
  {
    var i, j, c := IndexOf(ring, p), IndexOf(ring, v), IndexOf(ring, current);
    ShiftedMeasure(i, j, c);
    WithoutIndex(ring, v, p);
    WithoutIndex(ring, v, current);
    assert Measure(Without(ring, v), p, current) == Shifted(i, j) * 16 + Distance(Shifted(i, j), Shifted(c, j));
  }

  lemma DiscardDelay(s: System, v: nat, p: nat)
    requires Waiting(s, p) && Allowed(s, DiscardProcess(v)) && Waiting(Discard(s, v), p)
    ensures Overtakes(s, DiscardProcess(v), p) ==> Delay(Discard(s, v), p) == Delay(s, p) + 1
    ensures !Overtakes(s, DiscardProcess(v), p) ==> Delay(Discard(s, v), p) <= Delay(s, p)
  {
    RingFits(s);
    DiscardShape(s, v);
    RemovalDelay(s.ring, v, p, s.current);
  }

  // ----- Whole runs -----

  ghost predicate CallsSchedule(e: Event) {
    e.Yield? || e.SleepUntil? || e.ExitNow?
  }

  ghost predicate Grows(s: System, r: System) {
    r.current == s.current && (r.ring == s.ring || exists x :: r.ring == s.ring + [x])
  }

  lemma ReleaseRing(s: System, i: nat)
    requires InTable(s) && i < MAX_PROCESSES && (s.procs[i].vm.Some? ==> s.procs[i].vm.value in s.spaces)
    ensures Release(s, i).ring == s.ring && Release(s, i).current == s.current
  {
  }

  lemma ThreadGrows(s: System, entry: u64, gotStack: bool, stackFrames: bool, tlsFrames: bool)
    requires InTable(s) && HoldsOk(s)
    ensures Grows(s, SpawnThread(s, entry, gotStack, stackFrames, tlsFrames))
  {
    if s.procs[s.current].vm.Some? && FreeSlot(s.procs, 0).Some? {
      var i, v := FreeSlot(s.procs, 0).value, s.procs[s.current].vm.value;
      var p := ThreadOf(s.procs[s.current], FreePid(s.procs[i := BLANK], 1), entry);
      var carved := Carve(p, Retained(s.spaces[v]), stackFrames, tlsFrames);
      CarveTouches(p, Retained(s.spaces[v]), stackFrames, tlsFrames);
      ReleaseRing(Fill(s, i, p, v, Retained(s.spaces[v])), i);
      ReleaseRing(Fill(s, i, carved.1, v, carved.2), i);
    }
  }

  lemma QuietRing(s: System, e: Event)
    requires Safe(s) && Allowed(s, e) && !CallsSchedule(e) && !e.DiscardProcess?
    ensures Grows(s, Step(s, e))
  {
    match e {
      case CreateThread(entry, gotStack, stackFrames, tlsFrames) => ThreadGrows(s, entry, gotStack, stackFrames, tlsFrames);
      case ReapZombie(i) => assert s.procs[i].state.Zombie? ==> i !in s.ring;
      case _ =>
    }
  }

  lemma GrowsDelay(s: System, r: System, p: nat)
    requires Waiting(s, p) && Waiting(r, p) && Grows(s, r)
    ensures Delay(r, p) == Delay(s, p)
  {
    if r.ring != s.ring {
      var x :| r.ring == s.ring + [x];
      AppendIndex(s.ring, x, p);
      AppendIndex(s.ring, x, s.current);
    }
  }

  /** Each call of `schedule` brings a waiting process closer; only an overtaking discard sets it back, by one. */
  lemma StepCloser(s: System, e: Event, p: nat)
    requires Waiting(s, p) && Allowed(s, e) && Waiting(Step(s, e), p)
    ensures Delay(Step(s, e), p) + (if CallsSchedule(e) then 1 else 0)
         <= Delay(s, p) + if Overtakes(s, e, p) then 1 else 0
  {
    match e {
      case Yield(now) => ScheduleCloser(s, now, p);
      case SleepUntil(wake, now) => SleepCloser(s, wake, now, p);
      case ExitNow(now) => ExitCloser(s, now, p);
      case DiscardProcess(v) => DiscardDelay(s, v, p);
      case _ => QuietRing(s, e); GrowsDelay(s, Step(s, e), p);
    }
  }

  /** p is READY in every state of the run, so it is never dispatched. */
  ghost predicate StaysReady(s: System, es: seq<Event>, p: nat)
    requires Safe(s) && Possible(s, es)
    decreases |es|
  {
    Waiting(s, p) && (es == [] || (StepKeeps(s, es[0]); StaysReady(Step(s, es[0]), es[1..], p)))
  }

  ghost function Schedules(es: seq<Event>): nat {
    if es == [] then 0 else (if CallsSchedule(es[0]) then 1 else 0) + Schedules(es[1..])
  }

  ghost function Overtakings(s: System, es: seq<Event>, p: nat): nat
    requires Safe(s) && Possible(s, es) && StaysReady(s, es, p)
    decreases |es|
  {
    if es == [] then 0 else
      StepKeeps(s, es[0]);
      (if Overtakes(s, es[0], p) then 1 else 0) + Overtakings(Step(s, es[0]), es[1..], p)
  }

  /** In every run, a process that stays READY waits through at most its delay plus the overtaking discards. */
  lemma {:induction false} BoundedWaiting(s: System, es: seq<Event>, p: nat)
    requires Safe(s) && Possible(s, es) && StaysReady(s, es, p)
    ensures Schedules(es) < Delay(s, p) + Overtakings(s, es, p)
    ensures Schedules(es) < 255 + Overtakings(s, es, p)
    decreases |es|
  {
    DelayBounded(s, p);
    if es != [] {
      StepKeeps(s, es[0]);
      BoundedWaiting(Step(s, es[0]), es[1..], p);
      StepCloser(s, es[0], p);
    }
  }

  // ----- Discarding the newest process, as every caller in the kernel does -----

  ghost predicate DiscardsNewest(s: System, es: seq<Event>)
    requires Safe(s) && Possible(s, es)
    decreases |es|
  {
    es == [] ||
      (&& (es[0].DiscardProcess? ==> s.ring[|s.ring| - 1] == es[0].proc)
       && (StepKeeps(s, es[0]); DiscardsNewest(Step(s, es[0]), es[1..])))
  }

  lemma {:induction false} NewestNeverOvertakes(s: System, es: seq<Event>, p: nat)
    requires Safe(s) && Possible(s, es) && StaysReady(s, es, p) && DiscardsNewest(s, es)
    ensures Overtakings(s, es, p) == 0
    decreases |es|
  {
    if es != [] {
      StepKeeps(s, es[0]);
      IndexOfUnique(s.ring, |s.ring| - 1);
      NewestNeverOvertakes(Step(s, es[0]), es[1..], p);
    }
  }

  /** With the kernel's own callers, no READY process waits through 255 calls of `schedule`. */
  lemma BoundedWaitingInKernel(s: System, es: seq<Event>, p: nat)
    requires Safe(s) && Possible(s, es) && StaysReady(s, es, p) && DiscardsNewest(s, es)
    ensures Schedules(es) < 255
  {
    BoundedWaiting(s, es, p);
    NewestNeverOvertakes(s, es, p);
  }

  // ----- Without that restriction a process can starve -----

  /** Process 1 waits while the process behind it runs. */
  ghost predicate Trapped(s: System, a: nat) {
    && Safe(s) && s.ring == [IDLE, 1, a] && s.current == a && s.procs[1].state.Ready?
    && forall i: nat :: i < MAX_PROCESSES && i !in s.ring ==> s.procs[i].state.Unused?
  }

  lemma FreeSlotExists(procs: seq<Process>, from: nat, i: nat)
    requires from <= i < |procs| && procs[i].state.Unused?
    ensures FreeSlot(procs, from).Some?
    decreases |procs| - from
  {
  }

  lemma TrapCreates(s: System, a: nat) returns (r: System, b: nat)
    requires Trapped(s, a)
    ensures r == Step(s, CreateProcess(0, 0, 0, true)) && Safe(r)
    ensures r.ring == [IDLE, 1, a, b] && r.current == a && b < MAX_PROCESSES
    ensures r.procs[b].state.Ready? && r.procs[1].state.Ready?
    ensures forall i: nat :: i < MAX_PROCESSES && i !in r.ring ==> r.procs[i].state.Unused?
  {
    var spare: nat := if a == 2 then 3 else 2;
    assert spare !in s.ring;
    FreeSlotExists(s.procs, 0, spare);
    FreeSlotHasPid(s.procs);
    CreateKeeps(s, 0, 0, 0, true);
    b := FreeSlot(s.procs, 0).value;
    r := Step(s, CreateProcess(0, 0, 0, true));
  }

  lemma TrapYields(s: System, a: nat, b: nat) returns (r: System)
    requires Safe(s) && s.ring == [IDLE, 1, a, b] && s.current == a && b < MAX_PROCESSES
    requires s.procs[b].state.Ready? && s.procs[1].state.Ready?
    requires forall i: nat :: i < MAX_PROCESSES && i !in s.ring ==> s.procs[i].state.Unused?
    ensures r == Step(s, Yield(0)) && Safe(r) && r.ring == s.ring && r.current == b
    ensures r.procs[1].state.Ready? && Queued(r.procs[a])
    ensures forall i: nat :: i < MAX_PROCESSES && i !in r.ring ==> r.procs[i].state.Unused?
  {
    StepKeeps(s, Yield(0));
    IndexOfUnique(s.ring, 2);
    TurnsAt(Wake(s, 0), 0);
    r := Step(s, Yield(0));
  }

  lemma TrapDiscards(s: System, a: nat, b: nat)
    requires Safe(s) && s.ring == [IDLE, 1, a, b] && s.current == b && s.procs[1].state.Ready?
    requires forall i: nat :: i < MAX_PROCESSES && i !in s.ring ==> s.procs[i].state.Unused?
    ensures Allowed(s, DiscardProcess(a)) && Trapped(Step(s, DiscardProcess(a)), b)
  {
    assert s.ring[0] == IDLE && s.ring[1] == 1 && s.ring[2] == a && s.ring[3] == b;
    assert a in s.ring;
    StepKeeps(s, DiscardProcess(a));
    DiscardShape(s, a);
    IndexOfUnique(s.ring, 2);
    assert Without(s.ring, a) == [IDLE, 1, b];
  }

  lemma Prepends(s: System, e: Event, es: seq<Event>, p: nat)
    requires Waiting(s, p) && Allowed(s, e) && Safe(Step(s, e)) && Possible(Step(s, e), es) && StaysReady(Step(s, e), es, p)
    ensures Possible(s, [e] + es) && StaysReady(s, [e] + es, p)
    ensures Schedules([e] + es) == Schedules(es) + if CallsSchedule(e) then 1 else 0
  {
    assert ([e] + es)[1..] == es;
  }

  /** However many calls of `schedule` are made, process 1 can be kept READY and never dispatched. */
  lemma {:induction false} Starves(s: System, a: nat, n: nat) returns (es: seq<Event>)
    requires Trapped(s, a)
    ensures Possible(s, es) && StaysReady(s, es, 1) && Schedules(es) == n
    decreases n
  {
    if n == 0 {
      es := [];
    } else {
      var created, b := TrapCreates(s, a);
      var yielded := TrapYields(created, a, b);
      TrapDiscards(yielded, a, b);
      es := Starves(Step(yielded, DiscardProcess(a)), b, n - 1);
      Prepends(yielded, DiscardProcess(a), es, 1);
      es := [DiscardProcess(a)] + es;
      Prepends(created, Yield(0), es, 1);
      es := [Yield(0)] + es;
      Prepends(s, CreateProcess(0, 0, 0, true), es, 1);
      es := [CreateProcess(0, 0, 0, true)] + es;
    }
  }

  lemma TrapOpens(s: System)
    requires Safe(s) && s.ring == [IDLE, 1, 2] && s.current == 1 && s.procs[2].state.Ready?
    requires forall i: nat :: 2 < i < MAX_PROCESSES ==> s.procs[i].state.Unused?
    ensures Trapped(Step(s, Yield(0)), 2)
  {
    StepKeeps(s, Yield(0));
    IndexOfUnique(s.ring, 1);
    TurnsAt(Wake(s, 0), 0);
  }

  lemma TrapOpensFirst(s: System)
    requires Safe(s) && s.ring == [IDLE, 1, 2] && s.current == IDLE
    requires s.procs[1].state.Ready? && s.procs[2].state.Ready?
    requires forall i: nat :: 2 < i < MAX_PROCESSES ==> s.procs[i].state.Unused?
    ensures var r := Step(s, Yield(0));
      && Safe(r) && r.ring == s.ring && r.current == 1 && r.procs[2].state.Ready?
      && forall i: nat :: 2 < i < MAX_PROCESSES ==> r.procs[i].state.Unused?
  {
    StepKeeps(s, Yield(0));
    IndexOfUnique(s.ring, 0);
    TurnsAt(Wake(s, 0), 0);
  }

  lemma CreatesAt(s: System, n: nat)
    requires Safe(s) && 0 < n < MAX_PROCESSES && forall i: nat :: i < n ==> !s.procs[i].state.Unused?
    requires forall i: nat :: n <= i < MAX_PROCESSES ==> s.procs[i].state.Unused?
    ensures var r := Step(s, CreateProcess(0, 0, 0, true));
      && Safe(r) && r.ring == s.ring + [n] && r.current == s.current && r.procs[n].state.Ready?
      && (forall i: nat :: i < MAX_PROCESSES && i != n ==> r.procs[i] == s.procs[i])
  {
    FreeSlotExists(s.procs, 0, n);
    FreeSlotHasPid(s.procs);
    CreateKeeps(s, 0, 0, 0, true);
    FirstFree(s.procs, 0, n);
  }

  lemma {:induction false} FirstFree(procs: seq<Process>, from: nat, n: nat)
    requires from <= n < |procs| && procs[n].state.Unused?
    requires forall i: nat :: from <= i < n ==> !procs[i].state.Unused?
    ensures FreeSlot(procs, from) == Some(n)
    decreases n - from
  {
    if from < n { FirstFree(procs, from + 1, n); }
  }

  lemma RunStep(s: System, e: Event, es: seq<Event>)
    requires Safe(s) && Allowed(s, e) && Safe(Step(s, e)) && Possible(Step(s, e), es)
    ensures Possible(s, [e] + es) && Run(s, [e] + es) == Run(Step(s, e), es)
  {
    assert ([e] + es)[1..] == es;
  }

  lemma TrapSet() returns (start: seq<Event>)
    ensures Safe(Initial()) && Possible(Initial(), start) && Trapped(Run(Initial(), start), 2)
  {
    InitialSafe();
    var create := CreateProcess(0, 0, 0, true);
    var s0 := Initial();
    CreatesAt(s0, 1);
    var s1 := Step(s0, create);
    CreatesAt(s1, 2);
    var s2 := Step(s1, create);
    TrapOpensFirst(s2);
    var s3 := Step(s2, Yield(0));
    TrapOpens(s3);
    RunStep(s3, Yield(0), []);
    RunStep(s2, Yield(0), [Yield(0)] + []);
    RunStep(s1, create, [Yield(0)] + ([Yield(0)] + []));
    RunStep(s0, create, [create] + ([Yield(0)] + ([Yield(0)] + [])));
    start := [create] + ([create] + ([Yield(0)] + ([Yield(0)] + [])));
  }

  /** From boot, two new processes and two yields set the trap, so bounded waiting fails for unrestricted discards. */
  lemma StarvationReachable(n: nat) returns (start: seq<Event>, rest: seq<Event>)
    ensures Safe(Initial()) && Possible(Initial(), start) && Possible(Run(Initial(), start), rest)
    ensures StaysReady(Run(Initial(), start), rest, 1) && Schedules(rest) == n
  {
    start := TrapSet();
    rest := Starves(Run(Initial(), start), 2, n);
  }
}
