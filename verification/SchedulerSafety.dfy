/** What every step of the scheduler keeps: the ring, the running process, the pids and the shared address spaces. */
module SchedulerSafety {
  import opened Bytes
  import opened SchedulerSpec

  /** One ring headed by the idle process, holding each READY, RUNNING or BLOCKED process exactly once. */
  ghost predicate RingOk(s: System) {
    && InTable(s) && NoDup(s.ring) && |s.ring| > 0 && s.ring[0] == IDLE
    && (forall i: nat :: i < MAX_PROCESSES ==> (i in s.ring <==> Queued(s.procs[i])))
    && s.active == |s.ring| - 1
  }

  /** On entry to `schedule`: nobody but the current process may be RUNNING, and idle can always be chosen. */
  ghost predicate Pending(s: System) {
    && RingOk(s)
    && (forall i: nat :: i < MAX_PROCESSES && s.procs[i].state.Running? ==> i == s.current)
    && (if s.current == IDLE then s.procs[IDLE].state.Running? else s.procs[IDLE].state.Ready?)
  }

  /** Between system calls: exactly one process is RUNNING and it is the current one. */
  ghost predicate Settled(s: System) {
    Pending(s) && s.procs[s.current].state.Running?
  }

  ghost predicate PidsOk(procs: seq<Process>) {
    && |procs| == MAX_PROCESSES && procs[IDLE].pid == 0
    && (forall i: nat :: 0 < i < MAX_PROCESSES && !procs[i].state.Unused? ==> 1 <= procs[i].pid < MAX_PROCESSES)
    && (forall i: nat, j: nat :: i < j < MAX_PROCESSES && !procs[i].state.Unused? && !procs[j].state.Unused?
          ==> procs[i].pid != procs[j].pid)
  }

  ghost function Holders(procs: seq<Process>, v: nat): set<nat> {
    set i: nat | i < |procs| && procs[i].vm == Some(v)
  }

  /** A space exists exactly while somebody holds it, and its count is the number of holders. */
  ghost predicate CountsOk(s: System) {
    && (forall v :: v in s.spaces ==> s.spaces[v].refCount == |Holders(s.procs, v)| && Holders(s.procs, v) != {})
    && (forall i: nat :: i < |s.procs| && s.procs[i].vm.Some? ==> s.procs[i].vm.value in s.spaces)
  }

  ghost predicate HoldsOk(s: System) {
    CountsOk(s) && forall i: nat :: i < |s.procs| && s.procs[i].vm.Some? ==> Queued(s.procs[i])
  }

  ghost predicate Safe(s: System) {
    Settled(s) && PidsOk(s.procs) && HoldsOk(s) && s.procs[IDLE].vm.None?
  }

  // ----- Steps -----

  datatype Event =
    | Yield(now: nat)
    | SleepUntil(wake: u64, now: nat)
    | ExitNow(now: nat)
    | TimerTick(now: nat)
    | CreateProcess(entry: u64, stackTop: u64, stackBottom: u64, gotStack: bool)
    | CreateThread(entry: u64, gotStack: bool, stackFrames: bool, tlsFrames: bool)
    | ConfigureImage(proc: nat, image: Image, key: Option<nat>, frames: bool)
    | ReapZombie(proc: nat)
    | DiscardProcess(proc: nat)

  /** What the kernel's callers respect: slots exist, only a live process other than idle and the caller is discarded. */
  ghost predicate Allowed(s: System, e: Event)
    requires InTable(s)
  {
    match e
    case ConfigureImage(i, _, key, _) =>
      && IDLE < i < MAX_PROCESSES && Queued(s.procs[i]) && s.procs[i].vm.None?
      && (key.Some? ==> key.value !in s.spaces)
    case ReapZombie(i) => i < MAX_PROCESSES
    case DiscardProcess(i) => IDLE < i < MAX_PROCESSES && i != s.current && Queued(s.procs[i])
    case _ => true
  }

  ghost function Step(s: System, e: Event): (r: System)
    requires InTable(s) && HoldsOk(s) && Allowed(s, e)
    ensures InTable(r)
  {
    match e
    case Yield(now) => Schedule(s, now)
    case SleepUntil(wake, now) => Schedule(Park(s, wake), now)
    case ExitNow(now) => Exit(s, now)
    case TimerTick(now) => Tick(s, now)
    case CreateProcess(entry, top, bottom, gotStack) => Create(s, entry, top, bottom, gotStack)
    case CreateThread(entry, gotStack, stackFrames, tlsFrames) => SpawnThread(s, entry, gotStack, stackFrames, tlsFrames)
    case ConfigureImage(i, image, key, frames) => Configure(s, i, image, key, frames)
    case ReapZombie(i) => Reap(s, i)
    case DiscardProcess(i) => Discard(s, i)
  }

  // ----- schedule -----

  lemma WakeKeeps(s: System, now: nat)
    requires Pending(s)
    ensures Pending(Wake(s, now))
    ensures Settled(s) ==> Settled(Wake(s, now))
    ensures PidsOk(s.procs) ==> PidsOk(Wake(s, now).procs)
    ensures HoldsOk(s) ==> HoldsOk(Wake(s, now))
  {
    if HoldsOk(s) { SameHolders(s, Wake(s, now)); }
  }

  lemma SwitchKeeps(s: System, n: nat)
    requires Pending(s) && n < MAX_PROCESSES
    requires n == s.current ==> s.procs[n].state.Running?
    requires n != s.current ==> s.procs[n].state.Ready?
    ensures Settled(Switch(s, n)) && Switch(s, n).ring == s.ring && Switch(s, n).current == n
  {
  }

  lemma SwitchKeepsRecords(s: System, n: nat)
    requires InTable(s) && n < MAX_PROCESSES && Queued(s.procs[n])
    ensures PidsOk(s.procs) ==> PidsOk(Switch(s, n).procs)
    ensures HoldsOk(s) ==> HoldsOk(Switch(s, n))
  {
    if HoldsOk(s) { SameHolders(s, Switch(s, n)); }
  }

  /** The search stops at or before any READY entry. */
  lemma {:induction false} FirstReadyAt(procs: seq<Process>, order: seq<nat>, k: nat) returns (j: nat)
    requires forall m :: 0 <= m < |order| ==> order[m] < |procs|
    requires k < |order| && procs[order[k]].state.Ready?
    ensures j <= k && FirstReady(procs, order) == Some(order[j])
  {
    if procs[order[0]].state.Ready? {
      j := 0;
    } else {
      var m := FirstReadyAt(procs, order[1..], k - 1);
      j := m + 1;
    }
  }

  ghost function Wrapped(k: nat, n: nat): int {
    if k < n then k else k - n
  }

  lemma TurnsAt(s: System, j: nat)
    requires j < |s.ring|
    ensures |Turns(s)| == |s.ring| && 0 <= Wrapped(After(s) + j, |s.ring|) < |s.ring|
    ensures Turns(s)[j] == s.ring[Wrapped(After(s) + j, |s.ring|)]
  {
  }

  /** The current process comes last in its own turn order, so idle is always reached before it. */
  lemma ChosenCanRun(s: System)
    requires Pending(s)
    ensures if Chosen(s) == s.current then s.current == IDLE else s.procs[Chosen(s)].state.Ready?
  {
    if s.current != IDLE {
      var a := After(s);
      var k := if a == 0 then 0 else |s.ring| - a;
      if s.current in s.ring { assert s.ring[a - 1] == s.current; }
      TurnsAt(s, k);
      var j := FirstReadyAt(s.procs, Turns(s), k);
      TurnsAt(s, j);
    }
  }

  /** After `schedule` exactly one process is RUNNING, and it is the current one. */
  lemma ScheduleKeeps(s: System, now: nat)
    requires Pending(s)
    ensures Settled(Schedule(s, now)) && Schedule(s, now).ring == s.ring
    ensures PidsOk(s.procs) ==> PidsOk(Schedule(s, now).procs)
    ensures HoldsOk(s) ==> HoldsOk(Schedule(s, now))
  {
    WakeKeeps(s, now);
    ChosenCanRun(Wake(s, now));
    SwitchKeeps(Wake(s, now), Chosen(Wake(s, now)));
    SwitchKeepsRecords(Wake(s, now), Chosen(Wake(s, now)));
  }

  // ----- sleep, exit, discard -----

  lemma ParkKeeps(s: System, wake: u64)
    requires Settled(s) && s.procs[IDLE].vm.None?
    ensures Pending(Park(s, wake)) && Park(s, wake).procs[IDLE].vm.None?
    ensures PidsOk(s.procs) ==> PidsOk(Park(s, wake).procs)
    ensures HoldsOk(s) ==> HoldsOk(Park(s, wake))
  {
    var r := Park(s, wake);
    WithoutKeeps(s.ring, s.current);
    if HoldsOk(s) { SameHolders(s, r); }
    if s.current != IDLE { WithoutHead(s.ring, s.current); }
  }

  lemma WithoutHead(ring: seq<nat>, x: nat)
    requires |ring| > 0 && ring[0] != x
    ensures |Without(ring, x)| > 0 && Without(ring, x)[0] == ring[0]
  {
  }

  lemma HoldersPut(procs: seq<Process>, i: nat, p: Process, v: nat)
    requires i < |procs|
    ensures Holders(procs[i := p], v) == if p.vm == Some(v) then Holders(procs, v) + {i} else Holders(procs, v) - {i}
  {
  }

  lemma ReleaseCount(s: System, i: nat, v: nat)
    requires InTable(s) && CountsOk(s) && i < MAX_PROCESSES && v in s.spaces
    ensures v !in Release(s, i).spaces <==> Holders(s.procs, v) == {i}
    ensures v in Release(s, i).spaces ==>
      Release(s, i).spaces[v].refCount == |Holders(Release(s, i).procs, v)| && Holders(Release(s, i).procs, v) != {}
  {
    var before := Holders(s.procs, v);
    HoldersPut(s.procs, i, s.procs[i].(vm := None), v);
    if s.procs[i].vm == Some(v) {
      assert i in before;
      assert |before| == 1 + |before - {i}|;
      assert |before - {i}| == 0 <==> before - {i} == {};
      assert before == (before - {i}) + {i};
    } else {
      assert i !in before;
      assert before - {i} == before;
    }
  }

  /** The space goes exactly when its last holder lets go; every other space keeps its count. */
  lemma ReleaseKeeps(s: System, i: nat)
    requires InTable(s) && CountsOk(s) && i < MAX_PROCESSES
    ensures CountsOk(Release(s, i))
    ensures Release(s, i) == s.(procs := s.procs[i := s.procs[i].(vm := None)], spaces := Release(s, i).spaces)
    ensures forall v :: v in s.spaces ==> (v !in Release(s, i).spaces <==> Holders(s.procs, v) == {i})
  {
    var r := Release(s, i);
    forall v | v in s.spaces ensures
      && (v !in r.spaces <==> Holders(s.procs, v) == {i})
      && (v in r.spaces ==> r.spaces[v].refCount == |Holders(r.procs, v)| && Holders(r.procs, v) != {})
    {
      ReleaseCount(s, i, v);
    }
    assert r.procs == s.procs[i := s.procs[i].(vm := None)];
    forall j: nat | j < |r.procs| && r.procs[j].vm.Some? ensures r.procs[j].vm.value in r.spaces {
      assert j in Holders(s.procs, r.procs[j].vm.value);
    }
  }

  // ----- One slot at a time -----

  lemma LeaveRing(s: System, i: nat, p: Process)
    requires RingOk(s) && IDLE < i < MAX_PROCESSES && i in s.ring && !Queued(p)
    ensures RingOk(s.(procs := s.procs[i := p], ring := Without(s.ring, i), active := Decrement(s.active)))
  {
    WithoutKeeps(s.ring, i);
    WithoutHead(s.ring, i);
  }

  lemma JoinRing(s: System, i: nat, p: Process)
    requires RingOk(s) && i < MAX_PROCESSES && i !in s.ring && Queued(p)
    ensures RingOk(Append(Put(s, i, p), i))
  {
  }

  lemma SameHolders(s: System, r: System)
    requires CountsOk(s) && r.spaces == s.spaces && |r.procs| == |s.procs|
    requires forall i: nat :: i < |s.procs| ==> r.procs[i].vm == s.procs[i].vm
    ensures CountsOk(r)
  {
    forall v ensures Holders(r.procs, v) == Holders(s.procs, v) {
    }
  }

  lemma PidsSlot(procs: seq<Process>, i: nat, p: Process)
    requires PidsOk(procs) && i < MAX_PROCESSES && p.pid == procs[i].pid
    requires p.state.Unused? || !procs[i].state.Unused?
    ensures PidsOk(procs[i := p])
  {
  }

  lemma MarkZombieShape(s: System, i: nat)
    requires InTable(s) && CountsOk(s) && i < MAX_PROCESSES
    ensures MarkZombie(s, i) == s.(procs := s.procs[i := Buried(s.procs[i]).(vm := None)], ring := Without(s.ring, i),
                                   active := Decrement(s.active), spaces := MarkZombie(s, i).spaces)
    ensures CountsOk(MarkZombie(s, i))
  {
    var left := s.(procs := s.procs[i := Buried(s.procs[i])], ring := Without(s.ring, i), active := Decrement(s.active));
    SameHolders(s, left);
    ReleaseKeeps(left, i);
  }

  lemma MarkZombieKeeps(s: System)
    requires Safe(s) && s.current != IDLE
    ensures Pending(MarkZombie(s, s.current)) && PidsOk(MarkZombie(s, s.current).procs)
    ensures HoldsOk(MarkZombie(s, s.current)) && MarkZombie(s, s.current).procs[IDLE].vm.None?
  {
    var i := s.current;
    MarkZombieShape(s, i);
    LeaveRing(s, i, Buried(s.procs[i]).(vm := None));
    PidsSlot(s.procs, i, Buried(s.procs[i]).(vm := None));
  }

  lemma DiscardShape(s: System, i: nat)
    requires InTable(s) && CountsOk(s) && i < MAX_PROCESSES
    ensures Discard(s, i) == s.(procs := s.procs[i := Freed(s.procs[i])], ring := Without(s.ring, i),
                                active := Decrement(s.active), spaces := Discard(s, i).spaces)
    ensures CountsOk(Discard(s, i))
  {
    var without := s.(ring := Without(s.ring, i));
    SameHolders(s, without);
    ReleaseKeeps(without, i);
    SameHolders(Release(without, i), Discard(s, i));
  }

  lemma DiscardKeeps(s: System, i: nat)
    requires Safe(s) && Allowed(s, DiscardProcess(i))
    ensures Safe(Discard(s, i))
  {
    DiscardShape(s, i);
    LeaveRing(s, i, Freed(s.procs[i]));
    PidsSlot(s.procs, i, Freed(s.procs[i]));
  }

  lemma ReapKeeps(s: System, i: nat)
    requires Safe(s) && i < MAX_PROCESSES
    ensures Safe(Reap(s, i))
  {
    if s.procs[i].state.Zombie? {
      assert i !in s.ring;
      SameHolders(s, Reap(s, i));
      PidsSlot(s.procs, i, Freed(s.procs[i]));
    }
  }

  lemma SameRecords(s: System, r: System)
    requires Safe(s) && InTable(r) && r == s.(procs := r.procs)
    requires forall i: nat :: i < MAX_PROCESSES ==>
      r.procs[i].state == s.procs[i].state && r.procs[i].pid == s.procs[i].pid && r.procs[i].vm == s.procs[i].vm
    ensures Safe(r)
  {
    SameHolders(s, r);
  }

  lemma TickKeeps(s: System, now: nat)
    requires Safe(s)
    ensures Safe(Tick(s, now))
  {
    WakeKeeps(s, now);
    SameRecords(Wake(s, now), Tick(s, now));
  }

  // ----- pids -----

  lemma {:induction false} Below(n: nat, a: set<nat>)
    requires forall x :: x in a ==> x < n
    ensures |a| <= n
  {
    if n == 0 {
      assert a == {};
    } else {
      Below(n - 1, a - {n - 1});
      assert a - {n - 1} == a || a == (a - {n - 1}) + {n - 1};
    }
  }

  /** If the first n pids are all taken, n different slots take them. */
  lemma {:induction false} TakenSlots(procs: seq<Process>, n: nat) returns (slots: set<nat>)
    requires n < MAX_PROCESSES
    requires forall q :: 1 <= q <= n ==> PidTaken(procs, q)
    ensures |slots| == n
    ensures forall i :: i in slots ==> i < |procs| && !procs[i].state.Unused? && 1 <= procs[i].pid <= n
  {
    if n == 0 {
      slots := {};
    } else {
      var rest := TakenSlots(procs, n - 1);
      assert PidTaken(procs, n);
      var i: nat :| i < |procs| && !procs[i].state.Unused? && procs[i].pid == n;
      slots := rest + {i};
    }
  }

  /** There is a free pid whenever there is a free slot: idle and the free slot hold none of the fifteen. */
  lemma FreeSlotHasPid(procs: seq<Process>)
    requires PidsOk(procs) && !procs[IDLE].state.Unused? && FreeSlot(procs, 0).Some?
    ensures FreePid(procs[FreeSlot(procs, 0).value := BLANK], 1) > 0
  {
    var i := FreeSlot(procs, 0).value;
    var table := procs[i := BLANK];
    if FreePid(table, 1) == -1 {
      var slots := TakenSlots(table, MAX_PROCESSES - 1);
      assert IDLE !in slots && i !in slots && i != IDLE;
      assert |slots + {IDLE} + {i}| == MAX_PROCESSES + 1;
      Below(MAX_PROCESSES, slots + {IDLE} + {i});
    }
  }

  lemma PidsJoin(procs: seq<Process>, i: nat, p: Process)
    requires PidsOk(procs) && IDLE < i < MAX_PROCESSES
    requires 1 <= p.pid < MAX_PROCESSES && !PidTaken(procs[i := BLANK], p.pid)
    requires !procs[IDLE].state.Unused?
    ensures PidsOk(procs[i := p])
  {
    var table := procs[i := BLANK];
    forall j: nat | j < MAX_PROCESSES && j != i && !procs[j].state.Unused? ensures procs[j].pid != p.pid {
      assert table[j] == procs[j];
    }
  }

  // ----- creation -----

  lemma CreateKeeps(s: System, entry: u64, stackTop: u64, stackBottom: u64, gotStack: bool)
    requires Safe(s)
    ensures Safe(Create(s, entry, stackTop, stackBottom, gotStack))
    ensures gotStack && FreeSlot(s.procs, 0).Some? ==>
      Create(s, entry, stackTop, stackBottom, gotStack).ring == s.ring + [FreeSlot(s.procs, 0).value]
  {
    if FreeSlot(s.procs, 0).Some? {
      var i := FreeSlot(s.procs, 0).value;
      FreeSlotHasPid(s.procs);
      var p := Newborn(FreePid(s.procs[i := BLANK], 1), entry, stackTop, stackBottom);
      if gotStack {
        SameHolders(s, Put(s, i, p));
        Joins(s, Put(s, i, p), i);
        assert Create(s, entry, stackTop, stackBottom, gotStack) == Append(Put(s, i, p), i);
      } else {
        SameHolders(s, Put(s, i, Freed(p)));
        PidsJoin(s.procs, i, Freed(p));
      }
    }
  }

  lemma CarveTouches(p: Process, space: VmSpace, stackFrames: bool, tlsFrames: bool)
    ensures var r := Carve(p, space, stackFrames, tlsFrames);
      && r.1 == p.(stackTop := r.1.stackTop, stackBottom := r.1.stackBottom, tlsBottom := r.1.tlsBottom)
      && r.2 == space.(stackCursor := r.2.stackCursor)
  {
  }

  /** One more holder, one more on the count. */
  lemma HoldKeeps(s: System, i: nat, p: Process, v: nat, space: VmSpace)
    requires InTable(s) && CountsOk(s) && i < MAX_PROCESSES && s.procs[i].vm.None? && p.vm == Some(v)
    requires space.refCount == if v in s.spaces then s.spaces[v].refCount + 1 else 1
    ensures CountsOk(Fill(s, i, p, v, space))
  {
    var r := Fill(s, i, p, v, space);
    forall u ensures Holders(r.procs, u) == if u == v then Holders(s.procs, u) + {i} else Holders(s.procs, u) {
      HoldersPut(s.procs, i, p, u);
    }
    assert i !in Holders(s.procs, v);
    if v !in s.spaces { assert Holders(s.procs, v) == {}; }
  }

  ghost predicate DiffersAt(s: System, r: System, i: nat)
    requires InTable(s) && i < MAX_PROCESSES
  {
    InTable(r) && r == s.(procs := s.procs[i := r.procs[i]], spaces := r.spaces)
  }

  /** A slot filled and given up again leaves only its stale fields behind. */
  lemma GiveUp(s: System, filled: System, i: nat)
    requires Safe(s) && IDLE < i < MAX_PROCESSES && DiffersAt(s, filled, i) && CountsOk(filled)
    requires s.procs[i].state.Unused?
    ensures Safe(GaveUp(filled, i))
  {
    ReleaseKeeps(filled, i);
    SameHolders(Release(filled, i), GaveUp(filled, i));
    assert GaveUp(filled, i).procs == s.procs[i := GaveUp(filled, i).procs[i]];
  }

  lemma Joins(s: System, filled: System, i: nat)
    requires Safe(s) && IDLE < i < MAX_PROCESSES && DiffersAt(s, filled, i) && CountsOk(filled)
    requires s.procs[i].state.Unused? && filled.procs[i].state.Ready?
    requires filled.procs[i].pid == FreePid(s.procs[i := BLANK], 1) > 0
    ensures Safe(Append(filled, i))
  {
    JoinRing(s, i, filled.procs[i]);
    PidsJoin(s.procs, i, filled.procs[i]);
    SameHolders(filled, Append(filled, i));
  }

  lemma FillKeeps(s: System, i: nat, p: Process, v: nat, space: VmSpace)
    requires Safe(s) && IDLE < i < MAX_PROCESSES && s.procs[i].state.Unused? && v in s.spaces
    requires p.state.Ready? && p.vm == Some(v) && p.pid == FreePid(s.procs[i := BLANK], 1) > 0
    requires space.refCount == s.spaces[v].refCount + 1
    ensures CountsOk(Fill(s, i, p, v, space))
    ensures Safe(GaveUp(Fill(s, i, p, v, space), i)) && Safe(Append(Fill(s, i, p, v, space), i))
  {
    HoldKeeps(s, i, p, v, space);
    Joins(s, Fill(s, i, p, v, space), i);
    GiveUp(s, Fill(s, i, p, v, space), i);
  }

  lemma SpawnThreadKeeps(s: System, entry: u64, gotStack: bool, stackFrames: bool, tlsFrames: bool)
    requires Safe(s)
    ensures Safe(SpawnThread(s, entry, gotStack, stackFrames, tlsFrames))
  {
    if s.procs[s.current].vm.Some? && FreeSlot(s.procs, 0).Some? {
      var i, v := FreeSlot(s.procs, 0).value, s.procs[s.current].vm.value;
      FreeSlotHasPid(s.procs);
      var p := ThreadOf(s.procs[s.current], FreePid(s.procs[i := BLANK], 1), entry);
      var space := Retained(s.spaces[v]);
      var carved := Carve(p, space, stackFrames, tlsFrames);
      CarveTouches(p, space, stackFrames, tlsFrames);
      var r := SpawnThread(s, entry, gotStack, stackFrames, tlsFrames);
      if !gotStack {
        FillKeeps(s, i, p, v, space);
        assert r == GaveUp(Fill(s, i, p, v, space), i);
      } else if carved.0 {
        FillKeeps(s, i, carved.1, v, carved.2);
        assert r == Append(Fill(s, i, carved.1, v, carved.2), i);
      } else {
        FillKeeps(s, i, carved.1, v, carved.2);
        assert r == GaveUp(Fill(s, i, carved.1, v, carved.2), i);
      }
    }
  }

  lemma Refills(s: System, filled: System, i: nat)
    requires Safe(s) && IDLE < i < MAX_PROCESSES && DiffersAt(s, filled, i) && CountsOk(filled)
    requires Queued(s.procs[i])
    requires filled.procs[i].state == s.procs[i].state && filled.procs[i].pid == s.procs[i].pid
    ensures Safe(filled)
  {
    PidsSlot(s.procs, i, filled.procs[i]);
  }

  lemma ConfigureKeeps(s: System, i: nat, image: Image, key: Option<nat>, frames: bool)
    requires Safe(s) && Allowed(s, ConfigureImage(i, image, key, frames))
    ensures Safe(Configure(s, i, image, key, frames))
  {
    if key.Some? {
      var mapped := MainTls(s.procs[i].(vm := key), SpaceFor(image), frames);
      var filled := Fill(s, i, mapped.1, key.value, mapped.2);
      HoldKeeps(s, i, mapped.1, key.value, mapped.2);
      ReleaseKeeps(filled, i);
      Refills(s, if mapped.0 then filled else Release(filled, i), i);
    }
  }

  /** Every step keeps the ring, the running process, the pids and the reference counts. */
  lemma StepKeeps(s: System, e: Event)
    requires Safe(s) && Allowed(s, e)
    ensures Safe(Step(s, e))
  {
    match e {
      case Yield(now) => ScheduleKeeps(s, now); IdleUnshared(s, now);
      case SleepUntil(wake, now) =>
        ParkKeeps(s, wake);
        ScheduleKeeps(Park(s, wake), now);
        IdleUnshared(Park(s, wake), now);
      case ExitNow(now) =>
        var left := if s.current == IDLE then s else MarkZombie(s, s.current);
        if s.current != IDLE { MarkZombieKeeps(s); }
        ScheduleKeeps(left, now);
        IdleUnshared(left, now);
      case TimerTick(now) => TickKeeps(s, now);
      case CreateProcess(entry, top, bottom, gotStack) => CreateKeeps(s, entry, top, bottom, gotStack);
      case CreateThread(entry, gotStack, stackFrames, tlsFrames) =>
        SpawnThreadKeeps(s, entry, gotStack, stackFrames, tlsFrames);
      case ConfigureImage(i, image, key, frames) => ConfigureKeeps(s, i, image, key, frames);
      case ReapZombie(i) => ReapKeeps(s, i);
      case DiscardProcess(i) => DiscardKeeps(s, i);
    }
  }

  lemma IdleUnshared(s: System, now: nat)
    requires InTable(s) && s.procs[IDLE].vm.None?
    ensures Schedule(s, now).procs[IDLE].vm.None?
  {
  }

  // ----- Whole runs -----

  /** The state `scheduler_init` leaves behind. */
  ghost function Initial(): System {
    System(seq(MAX_PROCESSES, i => if i == IDLE then Newborn(0, 0, 0, 0).(state := Running) else BLANK), [IDLE], IDLE, 0, map[])
  }

  lemma InitialSafe()
    ensures Safe(Initial())
  {
    assert forall v :: Holders(Initial().procs, v) == {};
  }

  ghost predicate Possible(s: System, es: seq<Event>)
    requires Safe(s)
    decreases |es|
  {
    es == [] || (Allowed(s, es[0]) && (StepKeeps(s, es[0]); Possible(Step(s, es[0]), es[1..])))
  }

  ghost function Run(s: System, es: seq<Event>): (r: System)
    requires Safe(s) && Possible(s, es)
    ensures Safe(r)
    decreases |es|
  {
    if es == [] then s else StepKeeps(s, es[0]); Run(Step(s, es[0]), es[1..])
  }
}
