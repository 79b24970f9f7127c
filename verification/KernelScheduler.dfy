/** The scheduler as the kernel runs it: a fixed process table with a linked ring threaded through it. */
module KernelScheduler {
  import opened Bytes
  import opened SchedulerSpec
  import opened SchedulerSafety

  /** A null `next` pointer; other links are table slots. */
  const NONE: int := -1

  /** The links thread exactly the ring, in order and back to the head; other slots are unlinked. */
  ghost predicate Chain(links: seq<int>, ring: seq<nat>, head: int) {
    && |links| == MAX_PROCESSES && NoDup(ring)
    && (forall k :: 0 <= k < |ring| ==> ring[k] < MAX_PROCESSES)
    && (if ring == [] then head == NONE else head == ring[0])
    && (forall k {:trigger Successor(ring, k)} :: 0 <= k < |ring| ==> links[ring[k]] == Successor(ring, k))
    && (forall i: nat :: i < MAX_PROCESSES && i !in ring ==> links[i] == NONE)
  }

  ghost function Successor(ring: seq<nat>, k: nat): nat
    requires k < |ring|
  {
    if k + 1 < |ring| then ring[k + 1] else ring[0]
  }

  lemma ChainFirst(links: seq<int>, head: int, proc: nat)
    requires Chain(links, [], head) && proc < MAX_PROCESSES
    ensures Chain(links[proc := proc], [proc], proc)
  {
  }

  lemma ChainAppend(links: seq<int>, ring: seq<nat>, head: int, proc: nat)
    requires Chain(links, ring, head) && ring != [] && proc < MAX_PROCESSES && proc !in ring
    ensures Chain(links[ring[|ring| - 1] := proc][proc := head], ring + [proc], head)
  {
    var r := ring + [proc];
    var l := links[ring[|ring| - 1] := proc][proc := head];
    forall k | 0 <= k < |r| ensures l[r[k]] == Successor(r, k) {
      if k < |ring| - 1 {
        assert links[ring[k]] == Successor(ring, k);
        assert r[k] == ring[k] != ring[|ring| - 1] && r[k + 1] == ring[k + 1];
      } else if k == |ring| - 1 {
        assert r[k] == ring[|ring| - 1] && r[k + 1] == proc;
      } else {
        assert r[k] == proc && r[0] == head;
      }
    }
    forall i: nat | i < MAX_PROCESSES && i !in r ensures l[i] == NONE {
      assert r[|ring|] == proc && r[|ring| - 1] == ring[|ring| - 1];
    }
  }

  ghost function Before(ring: seq<nat>, k: nat): nat
    requires k < |ring|
  {
    if k == 0 then |ring| - 1 else k - 1
  }

  ghost function Unlinked(links: seq<int>, ring: seq<nat>, k: nat): seq<int>
    requires |links| == MAX_PROCESSES && k < |ring| && forall j :: 0 <= j < |ring| ==> ring[j] < MAX_PROCESSES
  {
    links[ring[Before(ring, k)] := links[ring[k]]][ring[k] := NONE]
  }

  lemma CutAt(ring: seq<nat>, k: nat, j: nat)
    requires k < |ring| && IndexOf(ring, ring[k]) == k && j < |ring| - 1
    ensures |Without(ring, ring[k])| == |ring| - 1
    ensures Without(ring, ring[k])[j] == ring[if j < k then j else j + 1]
  {
    var cut := ring[..k] + ring[k + 1..];
    assert Without(ring, ring[k]) == cut;
    assert cut[j] == if j < k then ring[..k][j] else ring[k + 1..][j - k];
  }

  /** The entry after j in the shortened ring. */
  lemma CutSuccessor(ring: seq<nat>, k: nat, j: nat)
    requires |ring| > 1 && k < |ring| && IndexOf(ring, ring[k]) == k && j < |ring| - 1
    ensures |Without(ring, ring[k])| == |ring| - 1
    ensures var m := if j < k then j else j + 1;
      Successor(Without(ring, ring[k]), j) == if Before(ring, k) == m then Successor(ring, k) else Successor(ring, m)
  {
    CutAt(ring, k, j);
    if j + 1 < |ring| - 1 { CutAt(ring, k, j + 1); } else { CutAt(ring, k, 0); }
  }

  /** Where the links lead once `ring[k]` is unlinked. */
  lemma UnlinkedAt(links: seq<int>, ring: seq<nat>, head: int, k: nat, m: nat)
    requires Chain(links, ring, head) && |ring| > 1 && k < |ring| && m < |ring| && m != k
    ensures Unlinked(links, ring, k)[ring[m]] == if Before(ring, k) == m then Successor(ring, k) else Successor(ring, m)
  {
    assert links[ring[m]] == Successor(ring, m) && links[ring[k]] == Successor(ring, k);
    assert ring[m] != ring[k];
    if Before(ring, k) != m { assert ring[Before(ring, k)] != ring[m]; }
  }

  /** Unlinking `ring[k]` from the entry before it. */
  lemma ChainRemove(links: seq<int>, ring: seq<nat>, head: int, k: nat)
    requires Chain(links, ring, head) && |ring| > 1 && k < |ring|
    ensures links[ring[Before(ring, k)]] == ring[k] != ring[Before(ring, k)]
    ensures Chain(Unlinked(links, ring, k), Without(ring, ring[k]), if k == 0 then links[ring[k]] else head)
  {
    var r, l := Without(ring, ring[k]), Unlinked(links, ring, k);
    IndexOfUnique(ring, k);
    WithoutKeeps(ring, ring[k]);
    CutAt(ring, k, 0);
    assert links[ring[Before(ring, k)]] == Successor(ring, Before(ring, k)) && links[ring[k]] == Successor(ring, k);
    forall j | 0 <= j < |r| ensures r[j] < MAX_PROCESSES && l[r[j]] == Successor(r, j) {
      CutAt(ring, k, j);
      CutSuccessor(ring, k, j);
      UnlinkedAt(links, ring, head, k, if j < k then j else j + 1);
    }
  }

  /** The entry after the k-th turn is the one after it in the ring. */
  lemma TurnsSuccessor(s: System, k: nat)
    requires k < |s.ring|
    ensures |Turns(s)| == |s.ring| && 0 <= Wrapped(After(s) + k, |s.ring|) < |s.ring|
    ensures Turns(s)[k] == s.ring[Wrapped(After(s) + k, |s.ring|)]
    ensures Successor(Turns(s), k) == Successor(s.ring, Wrapped(After(s) + k, |s.ring|))
  {
    TurnsAt(s, k);
    TurnsAt(s, if k + 1 < |s.ring| then k + 1 else 0);
  }

  /** The same links form a chain that starts with the process after the current one. */
  lemma TurnsChain(links: seq<int>, s: System, head: int)
    requires Chain(links, s.ring, head) && s.ring != [] && s.current < MAX_PROCESSES
    ensures Chain(links, Turns(s), if links[s.current] != NONE then links[s.current] else head)
  {
    var order := Turns(s);
    TurnsAt(s, 0);
    if s.current in s.ring {
      assert links[s.current] == Successor(s.ring, IndexOf(s.ring, s.current));
    }
    forall k | 0 <= k < |order| ensures order[k] < MAX_PROCESSES && links[order[k]] == Successor(order, k) {
      TurnsSuccessor(s, k);
    }
    forall a, b | 0 <= a < b < |order| ensures order[a] != order[b] {
      TurnsAt(s, a);
      TurnsAt(s, b);
    }
  }

  ghost predicate SleepersQueued(s: System) {
    forall i: nat :: i < |s.procs| && s.procs[i].state.Blocked? ==> i in s.ring
  }

  lemma ParkQueues(s: System, wake: u64)
    requires InTable(s) && NoDup(s.ring) && SleepersQueued(s)
    ensures SleepersQueued(Park(s, wake))
  {
    WithoutKeeps(s.ring, s.current);
  }

  lemma MarkZombieQueues(s: System, i: nat)
    requires InTable(s) && NoDup(s.ring) && SleepersQueued(s) && i < MAX_PROCESSES
    requires s.procs[i].vm.Some? ==> s.procs[i].vm.value in s.spaces
    ensures SleepersQueued(MarkZombie(s, i))
  {
    WithoutKeeps(s.ring, i);
  }

  lemma SafeMeets(s: System)
    requires Safe(s)
    ensures SleepersQueued(s) && s.current in s.ring
    ensures forall i: nat :: i < MAX_PROCESSES && s.procs[i].state.Unused? ==> i !in s.ring
    ensures forall i: nat :: i < MAX_PROCESSES && s.procs[i].vm.Some? ==> s.procs[i].vm.value in s.spaces
  {
  }

  lemma FillTwice(s: System, i: nat, p: Process, v: nat, space: VmSpace, q: Process, after: VmSpace)
    requires InTable(s) && i < MAX_PROCESSES
    ensures Fill(Fill(s, i, p, v, space), i, q, v, after) == Fill(s, i, q, v, after)
  {
  }

  class Scheduler {
    const procs: array<Process>
    const next: array<int>
    var head: int
    var current: nat
    var active: nat
    var spaces: map<nat, VmSpace>
    /** The slots of the run queue in link order, from the head. */
    ghost var ring: seq<nat>

    ghost predicate Linked()
      reads this, next
    {
      Chain(next[..], ring, head)
    }

    ghost predicate Valid()
      reads this, next, procs
    {
      Linked() && procs.Length == MAX_PROCESSES && current < MAX_PROCESSES
    }

    ghost function View(): (s: System)
      requires Valid()
      reads this, next, procs
      ensures InTable(s)
    {
      System(procs[..], ring, current, active, spaces)
    }

    method Enqueue(proc: nat)
      requires Linked() && proc < MAX_PROCESSES && proc !in ring
      modifies this`head, this`ring, next
      ensures Linked() && ring == old(ring) + [proc]
    {
      ghost var links := next[..];
      if head == NONE {
        next[proc] := proc;
        head := proc;
        ring := [proc];
        ChainFirst(links, old(head), proc);
        assert next[..] == links[proc := proc];
        return;
      }
      var tail := head;
      ghost var k := 0;
      while next[tail] != head
        invariant 0 <= k < |ring| && tail == ring[k]
        decreases |ring| - k
      {
        assert next[ring[k]] == Successor(ring, k);
        tail := next[tail];
        k := k + 1;
      }
      assert links[ring[k]] == Successor(ring, k);
      ChainAppend(links, ring, head, proc);
      next[tail] := proc;
      next[proc] := head;
      ring := ring + [proc];
      assert next[..] == links[tail := proc][proc := head];
    }
  
    /** The entry that links to `proc`, or NONE when no entry does. */
    method Predecessor(proc: nat) returns (prev: int, ghost k: int)
      requires Linked() && ring != []
      ensures prev == NONE ==> proc !in ring
      ensures prev != NONE ==> 0 <= k < |ring| && proc == ring[k] && prev == ring[Before(ring, k)]
    {
      prev, k := head, 0;
      while next[prev] != proc
        invariant 0 <= k < |ring| && prev == ring[k]
        invariant forall j :: 0 < j <= k ==> ring[j] != proc
        decreases |ring| - k
      {
        assert next[..][ring[k]] == Successor(ring, k);
        prev := next[prev];
        k := k + 1;
        if prev == head { return NONE, 0; }
      }
      assert next[..][ring[k]] == Successor(ring, k);
      k := if k + 1 < |ring| then k + 1 else 0;
    }

    method Dequeue(proc: nat)
      requires Linked() && proc < MAX_PROCESSES
      modifies this`head, this`ring, next
      ensures Linked() && ring == Without(old(ring), proc)
    {
      if head == NONE { return; }
      if head == proc && next[proc] == proc {
        assert next[..][ring[0]] == Successor(ring, 0);
        head := NONE;
        next[proc] := NONE;
        ring := [];
        return;
      }
      var prev, k := Predecessor(proc);
      if prev == NONE { return; }
      assert next[..][ring[k]] == Successor(ring, k);
      Unlink(prev, proc, k);
    }

    /** The pointer updates that take `proc`, at position k, out of a ring of at least two. */
    method Unlink(prev: nat, proc: nat, ghost k: nat)
      requires Linked() && |ring| > 1 && k < |ring| && proc == ring[k] && prev == ring[Before(ring, k)]
      modifies this`head, this`ring, next
      ensures Linked() && ring == Without(old(ring), proc)
    {
      ghost var links := next[..];
      ChainRemove(links, ring, head, k);
      next[prev] := next[proc];
      if head == proc { head := next[proc]; }
      next[proc] := NONE;
      assert next[..] == Unlinked(links, ring, k);
      assert old(head) == proc <==> k == 0;
      ring := Without(ring, proc);
    }
  
    /** Wakes every sleeper whose deadline has passed. */
    method WakeSleepers(now: nat)
      requires Valid() && SleepersQueued(View())
      modifies procs
      ensures Valid() && View() == Wake(old(View()), now)
    {
      ghost var before := View();
      if head == NONE { assert procs[..] == WakeAll(procs[..], now); return; }
      var p := head;
      var more := true;
      ghost var k := 0;
      while more
        invariant 0 <= k <= |ring| && more == (k < |ring|) && (more ==> p == ring[k])
        invariant forall j :: 0 <= j < k ==> procs[ring[j]] == Awake(old(procs[..])[ring[j]], now)
        invariant forall i: nat :: i < MAX_PROCESSES && i !in ring[..k] ==> procs[i] == old(procs[..])[i]
        decreases |ring| - k
      {
        assert next[..][ring[k]] == Successor(ring, k);
        assert p !in ring[..k];
        if procs[p].state.Blocked? && procs[p].wakeAt != 0 && now >= procs[p].wakeAt {
          procs[p] := procs[p].(state := Ready, wakeAt := 0);
        }
        p := next[p];
        assert ring[..k + 1] == ring[..k] + [ring[k]];
        k := k + 1;
        more := p != head;
      }
      assert ring[..k] == ring;
      forall i: nat | i < MAX_PROCESSES ensures procs[i] == Awake(before.procs[i], now) {
        assert before.procs[i].state.Blocked? ==> i in ring;
      }
      assert procs[..] == WakeAll(old(procs[..]), now);
    }

    /** The first READY process after the current one, or idle. */
    method FindReady() returns (n: nat)
      requires Valid() && head != NONE
      ensures n == Chosen(View())
    {
      ghost var order := Turns(View());
      TurnsChain(next[..], View(), head);
      var start := if next[current] != NONE then next[current] else head;
      n := FirstReadyFrom(start, order);
    }

    /** One turn around the links from `start`. */
    method FirstReadyFrom(start: nat, ghost order: seq<nat>) returns (n: nat)
      requires procs.Length == MAX_PROCESSES && next.Length == MAX_PROCESSES && Chain(next[..], order, start) && order != []
      ensures n == match FirstReady(procs[..], order) case Some(first) => first case None => IDLE
    {
      var p: nat := start;
      var more := true;
      ghost var k := 0;
      while more
        invariant 0 <= k <= |order| && more == (k < |order|) && (more ==> p == order[k])
        invariant FirstReady(procs[..], order) == FirstReady(procs[..], order[k..])
        decreases |order| - k
      {
        assert next[..][order[k]] == Successor(order, k);
        if procs[p].state.Ready? { return p; }
        p := next[p];
        k := k + 1;
        more := p != start;
      }
      return IDLE;
    }

    method PickNext(now: nat) returns (n: nat)
      requires Valid() && SleepersQueued(View())
      modifies procs
      ensures Valid() && View() == Wake(old(View()), now) && n == Chosen(View())
    {
      WakeSleepers(now);
      if head == NONE { return IDLE; }
      n := FindReady();
    }

    method SwitchTo(n: nat)
      requires Valid() && n < MAX_PROCESSES
      modifies procs, this`current
      ensures Valid() && View() == Switch(old(View()), n)
    {
      if n == current { return; }
      var was := current;
      current := n;
      if procs[was].state.Running? { procs[was] := procs[was].(state := Ready); }
      procs[n] := procs[n].(state := Running, ticks := SCHED_TICKS_PER_SLICE);
      assert procs[..] == Switch(old(View()), n).procs;
    }

    method Reschedule(now: nat)
      requires Valid() && SleepersQueued(View())
      modifies procs, this`current
      ensures Valid() && View() == Schedule(old(View()), now)
    {
      var n := PickNext(now);
      SwitchTo(n);
    }

    /** Blocks the caller and moves it to the tail of the ring. */
    method ParkCurrent(wake: u64)
      requires Valid() && current != IDLE && current in ring
      modifies this`head, this`ring, procs, next
      ensures Valid() && View() == Park(old(View()), wake)
    {
      ghost var before := View();
      procs[current] := procs[current].(state := Blocked, wakeAt := wake);
      WithoutKeeps(ring, current);
      Dequeue(current);
      Enqueue(current);
      assert procs[..] == before.procs[current := procs[current]];
    }

    method SleepUntil(wake: u64, now: nat)
      requires Valid() && SleepersQueued(View()) && (current != IDLE ==> current in ring)
      modifies this, procs, next
      ensures Valid() && View() == Schedule(Park(old(View()), wake), now)
    {
      ParkQueues(View(), wake);
      if current != IDLE { ParkCurrent(wake); }
      Reschedule(now);
    }
  
    ghost predicate Holds(i: nat)
      requires i < MAX_PROCESSES && procs.Length == MAX_PROCESSES
      reads this, procs
    {
      procs[i].vm.Some? ==> procs[i].vm.value in spaces
    }

    method ReleaseVm(proc: nat)
      requires Valid() && proc < MAX_PROCESSES && Holds(proc)
      modifies this`spaces, procs
      ensures Valid() && View() == Release(old(View()), proc)
    {
      if procs[proc].vm.None? { return; }
      var v := procs[proc].vm.value;
      procs[proc] := procs[proc].(vm := None);
      var space := spaces[v];
      if space.refCount == 0 {
        spaces := spaces - {v};
        return;
      }
      space := space.(refCount := space.refCount - 1);
      spaces := if space.refCount == 0 then spaces - {v} else spaces[v := space];
    }

    method LeaveRing(proc: nat)
      requires Valid() && proc < MAX_PROCESSES
      modifies this`head, this`ring, this`active, next
      ensures Valid() && View() == old(View()).(ring := Without(old(ring), proc), active := Decrement(old(active)))
    {
      Dequeue(proc);
      if active > 0 { active := active - 1; }
    }

    method BuryProcess(proc: nat)
      requires Valid() && proc < MAX_PROCESSES
      modifies procs
      ensures Valid() && View() == Put(old(View()), proc, Buried(old(procs[proc])))
    {
      procs[proc] := procs[proc].(state := Zombie);
      if procs[proc].userEntry != 0 {
        procs[proc] := procs[proc].(stackTop := 0, stackBottom := 0, tlsBottom := 0);
      }
      assert procs[..] == old(procs[..])[proc := Buried(old(procs[proc]))];
    }

    method MarkAsZombie(proc: nat)
      requires Valid() && proc < MAX_PROCESSES && Holds(proc)
      modifies this`head, this`ring, this`active, this`spaces, procs, next
      ensures Valid() && View() == MarkZombie(old(View()), proc)
    {
      BuryProcess(proc);
      LeaveRing(proc);
      ReleaseVm(proc);
    }

    method ExitCurrent(now: nat)
      requires Valid() && SleepersQueued(View()) && Holds(current)
      modifies this, procs, next
      ensures Valid() && View() == Exit(old(View()), now)
    {
      MarkZombieQueues(View(), current);
      if current != IDLE { MarkAsZombie(current); }
      Reschedule(now);
    }

    method FreeProcess(proc: nat)
      requires Valid() && proc < MAX_PROCESSES
      modifies procs
      ensures Valid() && View() == Put(old(View()), proc, Freed(old(procs[proc])))
    {
      procs[proc] := procs[proc].(vm := None, state := Unused);
    }

    method ReapProcess(proc: nat)
      requires Valid() && proc < MAX_PROCESSES
      modifies this`head, this`ring, procs, next
      ensures Valid() && View() == Reap(old(View()), proc)
    {
      if procs[proc].state.Zombie? {
        Dequeue(proc);
        FreeProcess(proc);
      }
    }

    method DiscardProcess(proc: nat)
      requires Valid() && proc < MAX_PROCESSES && Holds(proc)
      modifies this`head, this`ring, this`active, this`spaces, procs, next
      ensures Valid() && View() == Discard(old(View()), proc)
    {
      LeaveRing(proc);
      ReleaseVm(proc);
      FreeProcess(proc);
    }

    method TimerTick(now: nat)
      requires Valid() && SleepersQueued(View())
      modifies procs
      ensures Valid() && View() == Tick(old(View()), now)
    {
      WakeSleepers(now);
      if procs[current].ticks > 0 {
        procs[current] := procs[current].(ticks := procs[current].ticks - 1);
      }
      if procs[current].ticks == 0 {
        procs[current] := procs[current].(ticks := SCHED_TICKS_PER_SLICE);
      }
      assert procs[..] == Tick(old(View()), now).procs;
    }
  
    method AllocProcess() returns (slot: Option<nat>)
      requires Valid()
      modifies procs
      ensures Valid() && slot == FreeSlot(old(procs[..]), 0)
      ensures View() == if slot.Some? then Put(old(View()), slot.value, BLANK) else old(View())
    {
      for i := 0 to MAX_PROCESSES
        invariant Valid() && View() == old(View())
        invariant FreeSlot(procs[..], 0) == FreeSlot(procs[..], i)
      {
        if procs[i].state.Unused? {
          procs[i] := BLANK;
          return Some(i);
        }
      }
      return None;
    }

    method AllocPid() returns (pid: int)
      requires Valid()
      ensures pid == FreePid(procs[..], 1)
    {
      for q := 1 to MAX_PROCESSES
        invariant FreePid(procs[..], 1) == FreePid(procs[..], q)
      {
        var used := false;
        for i := 0 to MAX_PROCESSES
          invariant !used ==> forall j :: 0 <= j < i ==> procs[j].state.Unused? || procs[j].pid != q
          invariant used ==> PidTaken(procs[..], q)
        {
          if !procs[i].state.Unused? && procs[i].pid == q {
            assert procs[..][i].pid == q;
            used := true;
            break;
          }
        }
        if !used { return q; }
      }
      return -1;
    }

    ghost predicate FreeUnqueued()
      reads this, procs
      requires procs.Length == MAX_PROCESSES
    {
      forall i: nat :: i < MAX_PROCESSES && procs[i].state.Unused? ==> i !in ring
    }

    method EnterRing(proc: nat)
      requires Valid() && proc < MAX_PROCESSES && proc !in ring
      modifies this`head, this`ring, this`active, next
      ensures Valid() && View() == Append(old(View()), proc)
    {
      Enqueue(proc);
      active := active + 1;
    }

    method SetProcess(proc: nat, p: Process)
      requires Valid() && proc < MAX_PROCESSES
      modifies procs
      ensures Valid() && View() == Put(old(View()), proc, p)
    {
      procs[proc] := p;
    }

    /** A slot with a pid, or none; a slot that gets no pid is freed again. */
    method AllocSlot() returns (slot: Option<nat>, pid: int)
      requires Valid()
      modifies procs
      ensures Valid()
      ensures FreeSlot(old(procs[..]), 0).None? ==> slot.None? && View() == old(View())
      ensures FreeSlot(old(procs[..]), 0).Some? ==>
        var i := FreeSlot(old(procs[..]), 0).value;
        && pid == FreePid(old(procs[..])[i := BLANK], 1)
        && slot == (if pid < 0 then None else Some(i))
        && View() == Put(old(View()), i, BLANK.(pid := pid))
    {
      slot := AllocProcess();
      if slot.None? { return None, -1; }
      var i := slot.value;
      pid := AllocPid();
      SetProcess(i, BLANK.(pid := pid));
      if pid < 0 {
        FreeProcess(i);
        return None, pid;
      }
    }

    method CreateProcess(entry: u64, stackTop: u64, stackBottom: u64, gotStack: bool) returns (proc: Option<nat>)
      requires Valid() && FreeUnqueued()
      modifies this`head, this`ring, this`active, procs, next
      ensures Valid() && View() == Create(old(View()), entry, stackTop, stackBottom, gotStack)
      ensures proc.Some? ==> ring == old(ring) + [proc.value]
      ensures proc.None? ==> ring == old(ring)
    {
      ghost var before := View();
      var slot, pid := AllocSlot();
      if slot.None? { return None; }
      var i := slot.value;
      SetProcess(i, Newborn(pid, entry, stackTop, stackBottom));
      if !gotStack {
        FreeProcess(i);
        assert View() == Put(before, i, Freed(Newborn(pid, entry, stackTop, stackBottom)));
        return None;
      }
      EnterRing(i);
      assert View() == Append(Put(before, i, Newborn(pid, entry, stackTop, stackBottom)), i);
      return Some(i);
    }

    /** Carves a stack and, if the image has TLS, a TLS block below the space's cursor. */
    method AllocUserThreadRegion(proc: nat, stackFrames: bool, tlsFrames: bool) returns (ok: bool)
      requires Valid() && proc < MAX_PROCESSES && procs[proc].vm.Some? && Holds(proc)
      modifies this`spaces, procs
      ensures Valid()
      ensures var v := old(procs[proc].vm.value);
        var carved := Carve(old(procs[proc]), old(spaces[v]), stackFrames, tlsFrames);
        ok == carved.0 && View() == Fill(old(View()), proc, carved.1, v, carved.2)
    {
      var v := procs[proc].vm.value;
      var space := spaces[v];
      var stackTopPage := space.stackCursor;
      var reserve := StackReserve(space.loadEnd, stackTopPage);
      if reserve == 0 { return false; }
      var stackBottom := Sub64(stackTopPage, reserve);
      if stackBottom <= space.loadEnd { return false; }
      if !stackFrames { return false; }
      var p := procs[proc].(stackBottom := stackBottom, stackTop := AlignDown(Sub64(stackTopPage, 8), 16),
                            tlsBottom := stackBottom);
      SetProcess(proc, p);
      if space.tlsMemsz != 0 {
        var tlsBottom := TlsBottom(stackBottom, TlsBlock(space.tlsMemsz, space.tlsAlign));
        if tlsBottom <= space.loadEnd { return false; }
        if !tlsFrames { return false; }
        SetProcess(proc, p.(tlsBottom := tlsBottom));
        spaces := spaces[v := space.(stackCursor := tlsBottom)];
      } else {
        spaces := spaces[v := space.(stackCursor := stackBottom)];
      }
      ok := true;
    }
  
    method GiveUpSlot(proc: nat)
      requires Valid() && proc < MAX_PROCESSES && Holds(proc)
      modifies this`spaces, procs
      ensures Valid() && View() == GaveUp(old(View()), proc)
    {
      ReleaseVm(proc);
      FreeProcess(proc);
    }

    /** A fresh slot becomes a thread of the current process and holds its address space. */
    method ShareSpace(proc: nat, pid: int, entry: u64)
      requires Valid() && proc < MAX_PROCESSES && proc != current && procs[current].vm.Some? && Holds(current)
      modifies this`spaces, procs
      ensures Valid() && View() == Fill(old(View()), proc, ThreadOf(old(procs[current]), pid, entry),
                                        old(procs[current].vm.value), Retained(old(spaces[procs[current].vm.value])))
    {
      var v := procs[current].vm.value;
      SetProcess(proc, ThreadOf(procs[current], pid, entry));
      spaces := spaces[v := spaces[v].(refCount := spaces[v].refCount + 1)];
    }

    method SpawnUserThread(entry: u64, gotStack: bool, stackFrames: bool, tlsFrames: bool) returns (proc: Option<nat>)
      requires Valid() && FreeUnqueued() && Holds(current) && !procs[current].state.Unused?
      modifies this`head, this`ring, this`active, this`spaces, procs, next
      ensures Valid() && View() == SpawnThread(old(View()), entry, gotStack, stackFrames, tlsFrames)
      ensures proc.Some? ==> ring == old(ring) + [proc.value]
      ensures proc.None? ==> ring == old(ring)
    {
      ghost var before := View();
      if procs[current].vm.None? { return None; }
      ghost var v := procs[current].vm.value;
      var slot, pid := AllocSlot();
      if slot.None? { return None; }
      var i := slot.value;
      ShareSpace(i, pid, entry);
      ghost var p, space := ThreadOf(before.procs[current], pid, entry), Retained(before.spaces[v]);
      assert View() == Fill(before, i, p, v, space);
      var ok := FinishThread(i, gotStack, stackFrames, tlsFrames);
      ghost var carved := Carve(p, space, stackFrames, tlsFrames);
      CarveTouches(p, space, stackFrames, tlsFrames);
      FillTwice(before, i, p, v, space, carved.1, carved.2);
      return if ok then Some(i) else None;
    }

    /** The kernel stack and the user region of a new thread; without both its slot is given up. */
    method FinishThread(proc: nat, gotStack: bool, stackFrames: bool, tlsFrames: bool) returns (ok: bool)
      requires Valid() && proc < MAX_PROCESSES && proc !in ring && procs[proc].vm.Some? && Holds(proc)
      modifies this`head, this`ring, this`active, this`spaces, procs, next
      ensures Valid() && ring == if ok then old(ring) + [proc] else old(ring)
      ensures var v := old(procs[proc].vm.value);
        var carved := Carve(old(procs[proc]), old(spaces[v]), stackFrames, tlsFrames);
        var filled := Fill(old(View()), proc, carved.1, v, carved.2);
        && ok == (gotStack && carved.0)
        && carved.1.vm == Some(v)
        && View() == if ok then Append(filled, proc) else if gotStack then GaveUp(filled, proc) else GaveUp(old(View()), proc)
    {
      ghost var v := procs[proc].vm.value;
      CarveTouches(procs[proc], spaces[v], stackFrames, tlsFrames);
      if !gotStack {
        GiveUpSlot(proc);
        return false;
      }
      ok := AllocUserThreadRegion(proc, stackFrames, tlsFrames);
      if !ok {
        GiveUpSlot(proc);
        return false;
      }
      EnterRing(proc);
    }

    method MapMainThreadTls(proc: nat, frames: bool) returns (ok: bool)
      requires Valid() && proc < MAX_PROCESSES && procs[proc].vm.Some? && Holds(proc)
      modifies this`spaces, procs
      ensures Valid()
      ensures var v := old(procs[proc].vm.value);
        var mapped := MainTls(old(procs[proc]), old(spaces[v]), frames);
        ok == mapped.0 && View() == Fill(old(View()), proc, mapped.1, v, mapped.2)
    {
      var v := procs[proc].vm.value;
      var space := spaces[v];
      var bottom := procs[proc].stackBottom;
      SetProcess(proc, procs[proc].(tlsBottom := bottom));
      if space.tlsMemsz == 0 {
        spaces := spaces[v := space.(stackCursor := bottom)];
        return true;
      }
      var tlsBottom := TlsBottom(bottom, TlsBlock(space.tlsMemsz, space.tlsAlign));
      if tlsBottom < space.loadEnd { return false; }
      if !frames { return false; }
      SetProcess(proc, procs[proc].(tlsBottom := tlsBottom));
      spaces := spaces[v := space.(stackCursor := tlsBottom)];
      ok := true;
    }

    method ConfigureImage(proc: nat, image: Image, key: Option<nat>, frames: bool) returns (ok: bool)
      requires Valid() && proc < MAX_PROCESSES && procs[proc].vm.None? && (key.Some? ==> key.value !in spaces)
      modifies this`spaces, procs
      ensures Valid() && View() == Configure(old(View()), proc, image, key, frames)
      ensures !ok ==> spaces == old(spaces)
    {
      ghost var before := View();
      if key.None? { return false; }
      SetProcess(proc, procs[proc].(vm := key));
      spaces := spaces[key.value := SpaceFor(image)];
      ok := MapMainThreadTls(proc, frames);
      ghost var mapped := MainTls(before.procs[proc].(vm := key), SpaceFor(image), frames);
      assert View() == Fill(before, proc, mapped.1, key.value, mapped.2);
      if !ok { ReleaseVm(proc); }
    }

    /** The table after `scheduler_init`: idle runs and is alone in the ring. */
    constructor ()
      ensures Valid() && View() == Initial()
      ensures fresh(procs) && fresh(next)
    {
      procs := new Process[MAX_PROCESSES](_ => BLANK);
      next := new int[MAX_PROCESSES](_ => NONE);
      head, current, active, spaces, ring := NONE, IDLE, 0, map[], [];
      new;
      procs[IDLE] := Newborn(0, 0, 0, 0);
      Enqueue(IDLE);
      procs[IDLE] := procs[IDLE].(state := Running);
      assert procs[..] == Initial().procs;
    }
  
    /** One kernel step carries out the specified step, so every state the kernel reaches is safe. */
    method Perform(e: Event)
      requires Valid() && Safe(View()) && Allowed(View(), e)
      modifies this, procs, next
      ensures Valid() && View() == Step(old(View()), e) && Safe(View())
    {
      StepKeeps(View(), e);
      SafeMeets(View());
      match e {
        case Yield(now) => Reschedule(now);
        case SleepUntil(wake, now) => SleepUntil(wake, now);
        case ExitNow(now) => ExitCurrent(now);
        case TimerTick(now) => TimerTick(now);
        case CreateProcess(entry, top, bottom, gotStack) => var _ := CreateProcess(entry, top, bottom, gotStack);
        case CreateThread(entry, gotStack, stackFrames, tlsFrames) =>
          var _ := SpawnUserThread(entry, gotStack, stackFrames, tlsFrames);
        case ConfigureImage(proc, image, key, frames) => var _ := ConfigureImage(proc, image, key, frames);
        case ReapZombie(proc) => ReapProcess(proc);
        case DiscardProcess(proc) => DiscardProcess(proc);
      }
    }
  }
}
