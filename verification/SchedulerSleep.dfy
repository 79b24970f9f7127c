/** What one call does to each process, said of the table before and after it, and when a sleeper runs again. */
module SchedulerSleep {
  import opened Bytes
  import opened SchedulerSpec
  import opened SchedulerSafety
  import opened SchedulerFairness

  // ----- One process across one call of `schedule` -----

  ghost predicate Due(p: Process, now: nat) {
    p.state.Blocked? && 0 < p.wakeAt <= now
  }

  /** What can be dispatched at `now`. */
  ghost predicate Runnable(p: Process, now: nat) {
    p.state.Ready? || Due(p, now)
  }

  /** p before the call and q after it, for a process that did not make the call. */
  ghost predicate Passes(p: Process, q: Process, chosen: bool, now: nat) {
    if chosen then
      Runnable(p, now) && q == p.(state := Running, ticks := 10, wakeAt := if p.state.Ready? then p.wakeAt else 0)
    else
      q == if Due(p, now) then p.(state := Ready, wakeAt := 0) else p
  }

  ghost predicate OthersPass(s: System, r: System, now: nat) {
    && |s.procs| == |r.procs| == 16
    && forall i :: 0 <= i < 16 && i != s.current ==> Passes(s.procs[i], r.procs[i], i == r.current, now)
  }

  lemma WakePasses(s: System, now: nat, n: nat)
    requires InTable(s) && n < MAX_PROCESSES
    requires n == s.current || Wake(s, now).procs[n].state.Ready?
    ensures OthersPass(s, Switch(Wake(s, now), n), now)
  {
  }

  // ----- Who comes next -----

  ghost function At(ring: seq<nat>, c: nat, d: nat): nat
    requires c < |ring| && d <= |ring|
  {
    ring[if c + d < |ring| then c + d else c + d - |ring|]
  }

  /** n is d places after the current process, everyone in between cannot run, and n can or is the current one itself. */
  ghost predicate NextAt(s: System, now: nat, n: nat, c: nat, d: nat) {
    && InTable(s) && c < |s.ring| && s.ring[c] == s.current && 0 < d <= |s.ring| && At(s.ring, c, d) == n
    && (forall m :: 0 < m < d ==> !Runnable(s.procs[At(s.ring, c, m)], now))
    && (d < |s.ring| ==> Runnable(s.procs[n], now))
  }

  ghost predicate Next(s: System, now: nat, n: nat) {
    exists c, d :: NextAt(s, now, n, c, d)
  }

  lemma {:induction false} FirstReadySplit(procs: seq<Process>, order: seq<nat>) returns (j: nat)
    requires forall m :: 0 <= m < |order| ==> order[m] < |procs|
    requires FirstReady(procs, order).Some?
    ensures j < |order| && FirstReady(procs, order) == Some(order[j])
    ensures forall m :: 0 <= m < j ==> !procs[order[m]].state.Ready?
  {
    if procs[order[0]].state.Ready? {
      j := 0;
    } else {
      var m := FirstReadySplit(procs, order[1..]);
      j := m + 1;
    }
  }

  lemma TurnsAfter(s: System, now: nat, c: nat, m: nat)
    requires Safe(s) && c < |s.ring| && s.ring[c] == s.current && 0 < m <= |s.ring|
    ensures |Turns(Wake(s, now))| == |s.ring| && Turns(Wake(s, now))[m - 1] == At(s.ring, c, m)
    ensures At(s.ring, c, m) < MAX_PROCESSES
    ensures Wake(s, now).procs[At(s.ring, c, m)].state.Ready? <==> Runnable(s.procs[At(s.ring, c, m)], now)
  {
    IndexOfUnique(s.ring, c);
    TurnsAt(Wake(s, now), m - 1);
  }

  lemma NextBy(s: System, now: nat, c: nat, d: nat)
    requires Safe(s) && c < |s.ring| && s.ring[c] == s.current && 0 < d <= |s.ring| == |Turns(Wake(s, now))|
    requires forall m :: 0 <= m < d - 1 ==> !Wake(s, now).procs[Turns(Wake(s, now))[m]].state.Ready?
    requires d < |s.ring| ==> Wake(s, now).procs[Turns(Wake(s, now))[d - 1]].state.Ready?
    ensures NextAt(s, now, Turns(Wake(s, now))[d - 1], c, d)
  {
    TurnsAfter(s, now, c, d);
    forall m | 0 < m < d ensures !Runnable(s.procs[At(s.ring, c, m)], now) {
      TurnsAfter(s, now, c, m);
    }
  }

  /** The switch takes the nearest process after the current one that can run. */
  lemma ChosenNext(s: System, now: nat)
    requires Safe(s)
    ensures Next(s, now, Chosen(Wake(s, now)))
  {
    var w, c := Wake(s, now), IndexOf(s.ring, s.current);
    TurnsAfter(s, now, c, |s.ring|);
    if FirstReady(w.procs, Turns(w)).Some? {
      var j := FirstReadySplit(w.procs, Turns(w));
      NextBy(s, now, c, j + 1);
    } else {
      WakeKeeps(s, now);
      ChosenCanRun(w);
      assert IDLE in Turns(w);
      NextBy(s, now, c, |s.ring|);
    }
  }

  // ----- Each call, by the table before and after it -----

  /** x is taken out of the ring. */
  ghost predicate LeavesRing(ring: seq<nat>, x: nat, rest: seq<nat>) {
    exists k :: 0 <= k < |ring| && ring[k] == x && rest == ring[..k] + ring[k + 1..]
  }

  ghost predicate SameSpaces(s: System, r: System) {
    r.active == s.active && r.spaces == s.spaces
  }

  ghost predicate Yielded(s: System, r: System, now: nat) {
    && OthersPass(s, r, now) && Next(s, now, r.current) && r.ring == s.ring && SameSpaces(s, r) && s.current < 16
    && r.procs[s.current] == if r.current == s.current then s.procs[s.current] else s.procs[s.current].(state := Ready)
  }

  /** The caller sleeps at the tail of the ring, or is READY there when its deadline has passed, and idle runs. */
  ghost predicate Slept(s: System, r: System, wake: u64, now: nat) {
    && OthersPass(s, r, now) && r.current == 0 && SameSpaces(s, r) && 0 < s.current < 16
    && |r.ring| == |s.ring| > 0 && r.ring[|s.ring| - 1] == s.current
    && LeavesRing(s.ring, s.current, r.ring[..|s.ring| - 1])
    && r.procs[s.current] == if 0 < wake <= now then s.procs[s.current].(state := Ready, wakeAt := 0)
                             else s.procs[s.current].(state := Blocked, wakeAt := wake)
  }

  /** The caller is a ZOMBIE outside the ring without its address space, and idle runs. */
  ghost predicate Exited(s: System, r: System, now: nat) {
    && OthersPass(s, r, now) && r.current == 0 && 0 < s.current < 16
    && LeavesRing(s.ring, s.current, r.ring) && r.active == s.active - 1
    && r.procs[s.current] == if s.procs[s.current].userEntry == 0 then s.procs[s.current].(state := Zombie, vm := None)
         else s.procs[s.current].(state := Zombie, vm := None, stackTop := 0, stackBottom := 0, tlsBottom := 0)
  }

  /** The current slice counts down from ten and starts over at zero; nobody is switched. */
  ghost predicate TickPassed(s: System, r: System, now: nat) {
    && |s.procs| == |r.procs| == 16 && r.ring == s.ring && r.current == s.current < 16 && SameSpaces(s, r)
    && (forall i :: 0 <= i < 16 && i != s.current ==> Passes(s.procs[i], r.procs[i], false, now))
    && r.procs[s.current] == s.procs[s.current].(ticks := Countdown(s.procs[s.current].ticks))
  }

  ghost function Countdown(ticks: int): int {
    if ticks == 0 || ticks == 1 then 10 else if ticks > 1 then ticks - 1 else ticks
  }

  lemma YieldIs(s: System, now: nat)
    requires Safe(s)
    ensures Yielded(s, Step(s, Yield(now)), now)
  {
    ChosenNext(s, now);
    assert Chosen(Wake(s, now)) == s.current || Wake(s, now).procs[Chosen(Wake(s, now))].state.Ready? by {
      WakeKeeps(s, now);
      ChosenCanRun(Wake(s, now));
    }
    WakePasses(s, now, Chosen(Wake(s, now)));
  }

  lemma SleptOthers(s: System, wake: u64, now: nat)
    requires Safe(s) && s.current != 0
    ensures Step(s, SleepUntil(wake, now)).current == 0 && OthersPass(s, Step(s, SleepUntil(wake, now)), now)
  {
    var parked := Park(s, wake);
    ParkKeeps(s, wake);
    ParkedRing(s.ring, s.current);
    IdleNext(parked, now);
    WakePasses(parked, now, IDLE);
    OthersParked(s, parked, Step(s, SleepUntil(wake, now)), now);
  }

  lemma SleepIs(s: System, wake: u64, now: nat)
    requires Safe(s) && s.current != 0
    ensures Slept(s, Step(s, SleepUntil(wake, now)), wake, now)
  {
    SleptOthers(s, wake, now);
    ParkedRing(s.ring, s.current);
  }

  lemma ParkedRing(ring: seq<nat>, x: nat)
    requires x in ring
    ensures LeavesRing(ring, x, Without(ring, x)) && |Without(ring, x)| == |ring| - 1
    ensures (Without(ring, x) + [x])[..|ring| - 1] == Without(ring, x)
  {
    var k := IndexOf(ring, x);
    assert ring[k] == x && Without(ring, x) == ring[..k] + ring[k + 1..];
  }

  /** What the others see does not depend on what the caller did to its own slot. */
  lemma OthersParked(s: System, left: System, r: System, now: nat)
    requires OthersPass(left, r, now) && |s.procs| == |left.procs| && left.current == s.current
    requires forall i :: 0 <= i < |s.procs| && i != s.current ==> left.procs[i] == s.procs[i]
    ensures OthersPass(s, r, now)
  {
  }

  lemma ExitIs(s: System, now: nat)
    requires Safe(s) && s.current != 0
    ensures Exited(s, Step(s, ExitNow(now)), now)
  {
    var dead := MarkZombie(s, s.current);
    MarkZombieKeeps(s);
    MarkZombieShape(s, s.current);
    ParkedRing(s.ring, s.current);
    WithoutKeeps(s.ring, s.current);
    IdleNext(dead, now);
    WakePasses(dead, now, IDLE);
    OthersParked(s, dead, Step(s, ExitNow(now)), now);
  }

  /** A sleep or an exit of the idle process is a yield. */
  lemma IdleYields(s: System, wake: u64, now: nat)
    requires Safe(s) && s.current == 0
    ensures Step(s, SleepUntil(wake, now)) == Step(s, ExitNow(now)) == Step(s, Yield(now))
  {
  }

  lemma TickIs(s: System, now: nat)
    requires Safe(s)
    ensures TickPassed(s, Step(s, TimerTick(now)), now)
  {
  }

  // ----- Sleepers -----

  ghost predicate Reads(e: Event) {
    e.Yield? || e.SleepUntil? || e.ExitNow? || e.TimerTick?
  }

  /** The call reads the clock at or past the deadline. */
  ghost predicate Reaches(e: Event, deadline: nat) {
    Reads(e) && e.now >= deadline
  }

  ghost predicate Asleep(s: System, i: nat, deadline: nat) {
    i < |s.procs| && s.procs[i].state.Blocked? && s.procs[i].wakeAt == deadline
  }

  ghost predicate Woken(s: System, i: nat) {
    i < |s.procs| && (s.procs[i].state.Ready? || s.procs[i].state.Running?) && s.procs[i].wakeAt == 0
  }

  /** Across a call that reads the clock, every process but the caller's passes as one switch or tick lets it. */
  lemma ClockPasses(s: System, e: Event, i: nat)
    requires Safe(s) && Reads(e) && i < 16 && i != s.current
    ensures Passes(s.procs[i], Step(s, e).procs[i], !e.TimerTick? && i == Step(s, e).current, e.now)
  {
    match e {
      case Yield(now) => YieldIs(s, now);
      case SleepUntil(wake, now) =>
        if s.current == 0 { IdleYields(s, wake, now); YieldIs(s, now); } else { SleepIs(s, wake, now); }
      case ExitNow(now) =>
        if s.current == 0 { IdleYields(s, 0, now); YieldIs(s, now); } else { ExitIs(s, now); }
      case TimerTick(now) => TickIs(s, now);
    }
  }

  /** A sleeper that is due is READY or RUNNING with no deadline left; any other is exactly as it was. */
  lemma ClockWakes(s: System, e: Event, i: nat)
    requires Safe(s) && Reads(e) && i < 16 && s.procs[i].state.Blocked?
    ensures 0 < s.procs[i].wakeAt <= e.now ==> Woken(Step(s, e), i)
    ensures s.procs[i].wakeAt == 0 || e.now < s.procs[i].wakeAt ==> Step(s, e).procs[i] == s.procs[i]
  {
    ClockPasses(s, e, i);
  }

  lemma GaveUpLeaves(s: System, i: nat, p: Process, v: nat, space: VmSpace, j: nat)
    requires InTable(s) && i < MAX_PROCESSES && j < MAX_PROCESSES && i != j && p.vm == Some(v)
    ensures GaveUp(Fill(s, i, p, v, space), i).procs[j] == s.procs[j]
  {
  }

  /** Filling a free slot, in whatever way it ends, leaves every other slot alone. */
  lemma SpawnLeaves(s: System, entry: u64, gotStack: bool, stackFrames: bool, tlsFrames: bool, j: nat)
    requires InTable(s) && (s.procs[s.current].vm.Some? ==> s.procs[s.current].vm.value in s.spaces)
    requires j < MAX_PROCESSES && !s.procs[j].state.Unused?
    ensures SpawnThread(s, entry, gotStack, stackFrames, tlsFrames).procs[j] == s.procs[j]
  {
    if s.procs[s.current].vm.Some? && FreeSlot(s.procs, 0).Some? {
      var i, v := FreeSlot(s.procs, 0).value, s.procs[s.current].vm.value;
      var p, space := ThreadOf(s.procs[s.current], FreePid(s.procs[i := BLANK], 1), entry), Retained(s.spaces[v]);
      var carved := Carve(p, space, stackFrames, tlsFrames);
      CarveTouches(p, space, stackFrames, tlsFrames);
      GaveUpLeaves(s, i, p, v, space, j);
      GaveUpLeaves(s, i, carved.1, v, carved.2, j);
    }
  }

  /** A call that does not read the clock leaves state and deadline of a queued process alone, unless it discards it. */
  lemma QuietKeeps(s: System, e: Event, i: nat)
    requires Safe(s) && Allowed(s, e) && !Reads(e) && e != DiscardProcess(i) && i < 16 && Queued(s.procs[i])
    ensures Step(s, e).procs[i].state == s.procs[i].state && Step(s, e).procs[i].wakeAt == s.procs[i].wakeAt
  {
    match e {
      case CreateThread(entry, gotStack, stackFrames, tlsFrames) =>
        SpawnLeaves(s, entry, gotStack, stackFrames, tlsFrames, i);
      case DiscardProcess(v) => DiscardShape(s, v);
      case _ =>
    }
  }

  /** No call reads the clock at or past the deadline, or there is no deadline, and none discards the sleeper. */
  ghost predicate Undisturbed(es: seq<Event>, i: nat, deadline: nat) {
    forall k :: 0 <= k < |es| ==> es[k] != DiscardProcess(i) && (deadline == 0 || !Reaches(es[k], deadline))
  }

  /** Over every run: a sleeper sleeps until the clock reaches its deadline, and with deadline 0 it never wakes. */
  lemma {:induction false} StaysAsleep(s: System, es: seq<Event>, i: nat, deadline: nat)
    requires Safe(s) && Possible(s, es) && Asleep(s, i, deadline) && Undisturbed(es, i, deadline)
    ensures Asleep(Run(s, es), i, deadline)
    decreases |es|
  {
    if es != [] {
      StepKeeps(s, es[0]);
      if Reads(es[0]) { ClockWakes(s, es[0], i); } else { QuietKeeps(s, es[0], i); }
      StaysAsleep(Step(s, es[0]), es[1..], i, deadline);
    }
  }

  /** Some reading of the clock ends a sleep if and only if its deadline is not zero. */
  lemma SleepEnds(s: System, i: nat, deadline: nat)
    requires Safe(s) && Asleep(s, i, deadline)
    ensures deadline > 0 <==> exists now: nat :: Woken(Step(s, TimerTick(now)), i)
  {
    if deadline > 0 { ClockWakes(s, TimerTick(deadline), i); }
    forall now: nat | Woken(Step(s, TimerTick(now)), i) ensures deadline > 0 {
      ClockWakes(s, TimerTick(now), i);
    }
  }

  /**
    A sleep for `ms` milliseconds: the sum of clock and duration wraps at 64 bits. A sum of zero, wrapped or not, is a
    deadline that never comes; any other wrapped sum has already passed.
   */
  lemma SleepFor(s: System, ms: u64, now: u64)
    requires Safe(s) && s.current != 0
    ensures var r := Step(s, SleepUntil((now + ms) % 0x1_0000_0000_0000_0000, now));
      if now + ms == 0 || now + ms == 0x1_0000_0000_0000_0000 then Asleep(r, s.current, 0)
      else if ms > 0 && now + ms < 0x1_0000_0000_0000_0000 then Asleep(r, s.current, now + ms)
      else Woken(r, s.current)
  {
    var wake := (now + ms) % 0x1_0000_0000_0000_0000;
    SleepIs(s, wake, now);
    SleptOrWoken(s, Step(s, SleepUntil(wake, now)), wake, now);
    SumWraps(now, ms);
  }

  lemma SleptOrWoken(s: System, r: System, wake: u64, now: nat)
    requires Slept(s, r, wake, now)
    ensures if 0 < wake <= now then Woken(r, s.current) else Asleep(r, s.current, wake)
  {
  }

  lemma SumWraps(a: u64, b: u64)
    ensures (a + b) % 0x1_0000_0000_0000_0000 ==
      if a + b < 0x1_0000_0000_0000_0000 then a + b else a + b - 0x1_0000_0000_0000_0000
  {
  }

  /** The first call at or past the deadline wakes it; from then on the bound on waiting runs. */
  lemma SleeperWaits(s: System, before: seq<Event>, e: Event, after: seq<Event>, i: nat, deadline: nat)
    requires Safe(s) && Possible(s, before) && Asleep(s, i, deadline) && deadline > 0
    requires Undisturbed(before, i, deadline) && Allowed(Run(s, before), e) && Reaches(e, deadline)
    ensures Safe(Step(Run(s, before), e)) && Woken(Step(Run(s, before), e), i)
    ensures var r := Step(Run(s, before), e);
      Possible(r, after) && StaysReady(r, after, i) ==> Schedules(after) < 255 + Overtakings(r, after, i)
  {
    StaysAsleep(s, before, i, deadline);
    StepKeeps(Run(s, before), e);
    ClockWakes(Run(s, before), e, i);
    var r := Step(Run(s, before), e);
    if Possible(r, after) && StaysReady(r, after, i) { BoundedWaiting(r, after, i); }
  }

  // ----- Dispatch -----

  /** A READY process stays READY until it is dispatched or discarded. */
  lemma ReadyUntil(s: System, e: Event, i: nat)
    requires Waiting(s, i) && Allowed(s, e) && e != DiscardProcess(i)
    ensures Step(s, e).procs[i].state.Ready? || Step(s, e).procs[i].state.Running?
  {
    if Reads(e) { ClockPasses(s, e, i); } else { QuietKeeps(s, e, i); }
  }

  /** At some point of the run i is RUNNING. */
  ghost predicate Dispatched(s: System, es: seq<Event>, i: nat)
    requires Safe(s) && Possible(s, es) && i < MAX_PROCESSES
    decreases |es|
  {
    s.procs[i].state.Running? || (es != [] && (StepKeeps(s, es[0]); Dispatched(Step(s, es[0]), es[1..], i)))
  }

  lemma {:induction false} RunsOrWaits(s: System, es: seq<Event>, i: nat)
    requires Safe(s) && Possible(s, es) && DiscardProcess(i) !in es
    requires i < MAX_PROCESSES && (s.procs[i].state.Ready? || s.procs[i].state.Running?)
    ensures StaysReady(s, es, i) || Dispatched(s, es, i)
    decreases |es|
  {
    if s.procs[i].state.Ready? && es != [] {
      StepKeeps(s, es[0]);
      ReadyUntil(s, es[0], i);
      RunsOrWaits(Step(s, es[0]), es[1..], i);
    }
  }

  /** With the kernel's own discards, 255 switches after the one that wakes it a sleeper has been dispatched. */
  lemma SleeperRuns(s: System, before: seq<Event>, e: Event, after: seq<Event>, i: nat, deadline: nat)
    requires Safe(s) && Possible(s, before) && Asleep(s, i, deadline) && deadline > 0
    requires Undisturbed(before, i, deadline) && Allowed(Run(s, before), e) && Reaches(e, deadline)
    requires Safe(Step(Run(s, before), e)) && Possible(Step(Run(s, before), e), after)
    requires DiscardsNewest(Step(Run(s, before), e), after) && DiscardProcess(i) !in after && Schedules(after) >= 255
    ensures Dispatched(Step(Run(s, before), e), after, i)
  {
    SleeperWaits(s, before, e, after, i, deadline);
    var r := Step(Run(s, before), e);
    RunsOrWaits(r, after, i);
    if StaysReady(r, after, i) { BoundedWaitingInKernel(r, after, i); }
  }

  // ----- Slots -----

  ghost predicate LowestSlot(s: System, i: nat) {
    && |s.procs| == 16 && i < 16 && s.procs[i].state.Unused?
    && forall j :: 0 <= j < i ==> !s.procs[j].state.Unused?
  }

  ghost predicate Holds(s: System, pid: int) {
    exists j :: 0 <= j < |s.procs| && !s.procs[j].state.Unused? && s.procs[j].pid == pid
  }

  ghost predicate LowestPid(s: System, pid: int) {
    0 < pid < 16 && !Holds(s, pid) && forall q :: 0 < q < pid ==> Holds(s, q)
  }

  ghost predicate OtherSlots(s: System, r: System, i: nat) {
    |s.procs| == |r.procs| && forall j :: 0 <= j < |s.procs| && j != i ==> r.procs[j] == s.procs[j]
  }

  lemma {:induction false} FreePidIs(s: System, i: nat, from: nat)
    requires |s.procs| == 16 && i < 16 && s.procs[i].state.Unused? && 1 <= from <= 16
    requires forall q :: 0 < q < from ==> Holds(s, q)
    requires FreePid(s.procs[i := BLANK], from) >= 0
    ensures LowestPid(s, FreePid(s.procs[i := BLANK], from))
    decreases 16 - from
  {
    forall q: int ensures Holds(s, q) <==> PidTaken(s.procs[i := BLANK], q) {
      SamePids(s, i, q);
    }
    if from < 16 && PidTaken(s.procs[i := BLANK], from) { FreePidIs(s, i, from + 1); }
  }

  lemma SamePids(s: System, i: nat, q: int)
    requires |s.procs| == 16 && i < 16 && s.procs[i].state.Unused?
    ensures Holds(s, q) <==> PidTaken(s.procs[i := BLANK], q)
  {
    var blanked := s.procs[i := BLANK];
    if Holds(s, q) {
      var j :| 0 <= j < |s.procs| && !s.procs[j].state.Unused? && s.procs[j].pid == q;
      assert blanked[j] == s.procs[j];
    }
  }

  lemma {:induction false} FreeSlotIs(s: System, from: nat)
    requires |s.procs| == 16 && from <= 16 && forall j :: 0 <= j < from ==> !s.procs[j].state.Unused?
    ensures FreeSlot(s.procs, from).Some? ==> LowestSlot(s, FreeSlot(s.procs, from).value)
    decreases 16 - from
  {
    if from < 16 && !s.procs[from].state.Unused? { FreeSlotIs(s, from + 1); }
  }

  lemma FreshSlot(s: System) returns (i: nat, pid: int)
    requires PidsOk(s.procs) && !s.procs[0].state.Unused? && FreeSlot(s.procs, 0).Some?
    ensures FreeSlot(s.procs, 0) == Some(i) && pid == FreePid(s.procs[i := BLANK], 1) > 0
    ensures LowestSlot(s, i) && LowestPid(s, pid)
  {
    FreeSlotIs(s, 0);
    FreeSlotHasPid(s.procs);
    i := FreeSlot(s.procs, 0).value;
    FreePidIs(s, i, 1);
    pid := FreePid(s.procs[i := BLANK], 1);
  }

  ghost predicate Created(s: System, r: System, i: nat, pid: int, entry: u64, stackTop: u64, stackBottom: u64) {
    && LowestSlot(s, i) && LowestPid(s, pid) && OtherSlots(s, r, i)
    && r.procs[i] == Process(Ready, pid, pid, 0, 10, None, entry, stackTop, stackBottom, stackBottom)
    && r.ring == s.ring + [i] && r.current == s.current && r.active == s.active + 1 && r.spaces == s.spaces
  }

  /** A new process takes the lowest free slot and pid and the tail of the ring, READY for a full slice. */
  lemma CreateIs(s: System, entry: u64, stackTop: u64, stackBottom: u64) returns (i: nat, pid: int)
    requires Safe(s) && exists j :: 0 <= j < 16 && s.procs[j].state.Unused?
    ensures Created(s, Step(s, CreateProcess(entry, stackTop, stackBottom, true)), i, pid, entry, stackTop, stackBottom)
  {
    var j :| 0 <= j < 16 && s.procs[j].state.Unused?;
    FreeSlotExists(s.procs, 0, j);
    i, pid := FreshSlot(s);
  }

  /** With every slot taken nothing changes; without a kernel stack the slot stays free. */
  lemma CreateFails(s: System, entry: u64, stackTop: u64, stackBottom: u64)
    requires Safe(s)
    ensures var r := Step(s, CreateProcess(entry, stackTop, stackBottom, false));
      && r == s.(procs := r.procs)
      && forall j :: 0 <= j < 16 ==> r.procs[j] == s.procs[j] || (s.procs[j].state.Unused? && r.procs[j].state.Unused?)
    ensures (forall j :: 0 <= j < 16 ==> !s.procs[j].state.Unused?) ==>
      Step(s, CreateProcess(entry, stackTop, stackBottom, true)) == s
  {
  }

  ghost predicate Spawned(s: System, r: System, i: nat, pid: int, entry: u64) {
    && LowestSlot(s, i) && LowestPid(s, pid) && OtherSlots(s, r, i) && s.current < 16
    && r.ring == s.ring + [i] && r.current == s.current && r.active == s.active + 1
    && var p, me := r.procs[i], s.procs[s.current];
      && p.state.Ready? && p.pid == pid && p.wakeAt == 0 && p.ticks == 10 && p.userEntry == entry
      && p.groupId == me.groupId && p.vm == me.vm && me.vm.Some?
  }

  /** A kernel stack and a region in the maker's address space are to be had, and a slot is free. */
  ghost predicate CanSpawn(s: System, entry: u64, gotStack: bool, stackFrames: bool, tlsFrames: bool)
    requires InTable(s) && HoldsOk(s)
  {
    && gotStack && s.procs[s.current].vm.Some? && FreeSlot(s.procs, 0).Some?
    && Carve(BLANK, s.spaces[s.procs[s.current].vm.value], stackFrames, tlsFrames).0
  }

  lemma CarveSuccess(p: Process, q: Process, space: VmSpace, stackFrames: bool, tlsFrames: bool)
    ensures Carve(p, Retained(space), stackFrames, tlsFrames).0 == Carve(q, space, stackFrames, tlsFrames).0
  {
  }

  /** A new thread takes the lowest free slot and pid in its maker's group and address space, or the ring stays. */
  lemma ThreadIs(s: System, entry: u64, gotStack: bool, stackFrames: bool, tlsFrames: bool) returns (i: nat, pid: int)
    requires Safe(s)
    ensures var r := Step(s, CreateThread(entry, gotStack, stackFrames, tlsFrames));
      if CanSpawn(s, entry, gotStack, stackFrames, tlsFrames) then Spawned(s, r, i, pid, entry)
      else r.ring == s.ring && r.active == s.active && r.current == s.current
  {
    i, pid := 0, 0;
    if s.procs[s.current].vm.Some? && FreeSlot(s.procs, 0).Some? {
      i, pid := FreshSlot(s);
      ThreadShape(s, i, pid, entry, gotStack, stackFrames, tlsFrames);
    }
  }

  lemma ThreadShape(s: System, i: nat, pid: int, entry: u64, gotStack: bool, stackFrames: bool, tlsFrames: bool)
    requires InTable(s) && HoldsOk(s) && s.procs[s.current].vm.Some? && FreeSlot(s.procs, 0) == Some(i)
    requires pid == FreePid(s.procs[i := BLANK], 1) > 0 && LowestSlot(s, i) && LowestPid(s, pid)
    ensures var r := SpawnThread(s, entry, gotStack, stackFrames, tlsFrames);
      if CanSpawn(s, entry, gotStack, stackFrames, tlsFrames) then Spawned(s, r, i, pid, entry)
      else r.ring == s.ring && r.active == s.active && r.current == s.current
  {
    var p, space := ThreadOf(s.procs[s.current], pid, entry), s.spaces[s.procs[s.current].vm.value];
    CarveTouches(p, Retained(space), stackFrames, tlsFrames);
    CarveSuccess(p, BLANK, space, stackFrames, tlsFrames);
  }

  /** A discarded process leaves slot, ring and address space. */
  lemma DiscardIs(s: System, i: nat)
    requires Safe(s) && Allowed(s, DiscardProcess(i))
    ensures var r := Step(s, DiscardProcess(i));
      && OtherSlots(s, r, i) && r.procs[i] == s.procs[i].(state := Unused, vm := None)
      && LeavesRing(s.ring, i, r.ring) && r.current == s.current && r.active == s.active - 1
  {
    DiscardShape(s, i);
    ParkedRing(s.ring, i);
  }

  /** Only a ZOMBIE is reaped: its slot is free again. */
  lemma ReapIs(s: System, i: nat)
    requires Safe(s) && i < 16
    ensures var r := Step(s, ReapZombie(i));
      r == if s.procs[i].state.Zombie? then s.(procs := s.procs[i := s.procs[i].(state := Unused, vm := None)]) else s
  {
    assert s.procs[i].state.Zombie? ==> i !in s.ring;
  }

  // ----- One sleep, from boot -----

  ghost predicate Two(s: System, current: nat) {
    Safe(s) && s.ring == [0, 1] && s.current == current
  }

  lemma NextOfTwo(s: System, now: nat, n: nat)
    requires Two(s, 0) && Next(s, now, n)
    ensures n == if Runnable(s.procs[1], now) then 1 else 0
  {
    var c, d :| NextAt(s, now, n, c, d);
    assert At(s.ring, c, 1) == 1;
  }

  lemma FirstYields(s: System, now: nat)
    requires Two(s, 0)
    ensures var r := Step(s, Yield(now));
      if Runnable(s.procs[1], now) then Two(r, 1) && r.procs[1].state.Running? else Two(r, 0) && r.procs[1] == s.procs[1]
  {
    YieldIs(s, now);
    StepKeeps(s, Yield(now));
    NextOfTwo(s, now, Step(s, Yield(now)).current);
  }

  lemma FirstSleeps(s: System, deadline: u64, now: nat)
    requires Two(s, 1) && now < deadline
    ensures var r := Step(s, SleepUntil(deadline, now)); Two(r, 0) && Asleep(r, 1, deadline)
  {
    var r := Step(s, SleepUntil(deadline, now));
    SleepIs(s, deadline, now);
    StepKeeps(s, SleepUntil(deadline, now));
    assert r.ring[..1][0] == r.ring[0] == 0;
    assert r.ring == [0, 1];
  }

  /** From boot, the first process created is dispatched by the first switch. */
  lemma FirstStarts() returns (s: System)
    ensures Safe(Initial()) && Safe(Step(Initial(), CreateProcess(0, 0, 0, true)))
    ensures s == Step(Step(Initial(), CreateProcess(0, 0, 0, true)), Yield(0)) && Two(s, 1)
  {
    InitialSafe();
    CreatesAt(Initial(), 1);
    s := Step(Initial(), CreateProcess(0, 0, 0, true));
    FirstYields(s, 0);
    s := Step(s, Yield(0));
  }

  /** It sleeps through an early switch and is dispatched by a switch at or past its deadline. */
  lemma FirstSleepsAndWakes(s: System, deadline: u64, asleep: nat, early: nat, late: nat)
    requires Two(s, 1) && asleep < deadline && early < deadline <= late
    ensures var slept := Step(s, SleepUntil(deadline, asleep));
      && Two(slept, 0) && Asleep(slept, 1, deadline)
      && Two(Step(slept, Yield(early)), 0) && Asleep(Step(slept, Yield(early)), 1, deadline)
      && Two(Step(slept, Yield(late)), 1) && Step(slept, Yield(late)).procs[1].state.Running?
  {
    FirstSleeps(s, deadline, asleep);
    FirstYields(Step(s, SleepUntil(deadline, asleep)), early);
    FirstYields(Step(s, SleepUntil(deadline, asleep)), late);
  }
}
