/** The scheduler's meaning as a function on values: a process table, the order of the ring and who runs. */
module SchedulerSpec {
  import opened Bytes

  const MAX_PROCESSES: nat := 16
  const SCHED_TICKS_PER_SLICE: nat := 10
  const PAGE_SIZE: nat := 4096
  const USER_STACK_INITIAL_COMMIT_SIZE: nat := 4096
  const USER_TLS_TCB_SIZE: nat := 8
  const WRAP: nat := 0x1_0000_0000_0000_0000
  type u64 = x: nat | x < WRAP

  /** The idle process takes the first slot and keeps it. */
  const IDLE: nat := 0

  datatype ProcState = Unused | Ready | Running | Blocked | Zombie

  datatype Process = Process(
    state: ProcState, pid: int, groupId: int, wakeAt: u64, ticks: int, vm: Option<nat>,
    userEntry: u64, stackTop: u64, stackBottom: u64, tlsBottom: u64)

  const BLANK := Process(Unused, 0, 0, 0, 0, None, 0, 0, 0, 0)

  datatype VmSpace = VmSpace(
    refCount: nat, loadBase: u64, loadEnd: u64, stackCursor: u64, tlsMemsz: u64, tlsAlign: u64)

  datatype System = System(procs: seq<Process>, ring: seq<nat>, current: nat, active: nat, spaces: map<nat, VmSpace>)

  /** What the loader hands over for a new image. */
  datatype Image = Image(loadBase: u64, loadEnd: u64, stackBottom: u64, tlsMemsz: u64, tlsAlign: u64)

  predicate Queued(p: Process) {
    p.state.Ready? || p.state.Running? || p.state.Blocked?
  }

  // ----- The ring as a sequence -----

  ghost predicate NoDup(ring: seq<nat>) {
    forall a, b :: 0 <= a < b < |ring| ==> ring[a] != ring[b]
  }

  function IndexOf(ring: seq<nat>, x: nat): (k: nat)
    requires x in ring
    ensures k < |ring| && ring[k] == x
  {
    if ring[0] == x then 0 else 1 + IndexOf(ring[1..], x)
  }

  function Without(ring: seq<nat>, x: nat): (rest: seq<nat>)
    ensures forall y :: y in rest ==> y in ring
  {
    if x in ring then
      var k := IndexOf(ring, x);
      ring[..k] + ring[k + 1..]
    else ring
  }

  lemma IndexOfUnique(ring: seq<nat>, k: nat)
    requires NoDup(ring) && k < |ring|
    ensures IndexOf(ring, ring[k]) == k
  {
  }

  lemma WithoutKeeps(ring: seq<nat>, x: nat)
    requires NoDup(ring)
    ensures NoDup(Without(ring, x)) && x !in Without(ring, x)
    ensures forall y | y != x :: y in Without(ring, x) <==> y in ring
    ensures |Without(ring, x)| == if x in ring then |ring| - 1 else |ring|
  {
    if x in ring {
      var k := IndexOf(ring, x);
      forall y | y != x && y in ring ensures y in Without(ring, x) {
        var j :| 0 <= j < |ring| && ring[j] == y;
        assert y == Without(ring, x)[if j < k then j else j - 1];
      }
    }
  }

  // ----- Choosing and switching -----

  function Awake(p: Process, now: nat): Process {
    if p.state.Blocked? && p.wakeAt != 0 && now >= p.wakeAt then p.(state := Ready, wakeAt := 0) else p
  }

  function WakeAll(procs: seq<Process>, now: nat): (woken: seq<Process>)
    ensures |woken| == |procs|
    ensures forall i :: 0 <= i < |procs| ==> woken[i] == Awake(procs[i], now)
  {
    seq(|procs|, i requires 0 <= i < |procs| => Awake(procs[i], now))
  }

  /** The first READY entry in a given order. */
  function FirstReady(procs: seq<Process>, order: seq<nat>): (n: Option<nat>)
    requires forall k :: 0 <= k < |order| ==> order[k] < |procs|
    ensures n.Some? ==> n.value in order && procs[n.value].state.Ready?
    ensures n.None? ==> forall k :: 0 <= k < |order| ==> !procs[order[k]].state.Ready?
  {
    if order == [] then None
    else if procs[order[0]].state.Ready? then Some(order[0])
    else FirstReady(procs, order[1..])
  }

  /** Where the search starts: after the current process, or at the head when it has left the ring. */
  function After(s: System): (k: nat)
    ensures k <= |s.ring|
  {
    if s.current in s.ring then IndexOf(s.ring, s.current) + 1 else 0
  }

  function Turns(s: System): (order: seq<nat>)
    ensures forall i :: i in order <==> i in s.ring
  {
    var k := After(s);
    assert s.ring == s.ring[..k] + s.ring[k..];
    s.ring[k..] + s.ring[..k]
  }

  ghost predicate InTable(s: System) {
    && |s.procs| == MAX_PROCESSES && s.current < MAX_PROCESSES
    && (forall k :: 0 <= k < |s.ring| ==> s.ring[k] < MAX_PROCESSES)
  }

  function Chosen(s: System): (n: nat)
    requires InTable(s)
    ensures n < MAX_PROCESSES
  {
    match FirstReady(s.procs, Turns(s))
    case Some(n) => n
    case None => IDLE
  }

  function Switch(s: System, n: nat): (r: System)
    requires InTable(s) && n < MAX_PROCESSES
    ensures InTable(r)
  {
    if n == s.current then s else
      var was := s.procs[s.current];
      var left := if was.state.Running? then s.procs[s.current := was.(state := Ready)] else s.procs;
      s.(current := n, procs := left[n := left[n].(state := Running, ticks := SCHED_TICKS_PER_SLICE)])
  }

  function Wake(s: System, now: nat): System {
    s.(procs := WakeAll(s.procs, now))
  }

  function Schedule(s: System, now: nat): (r: System)
    requires InTable(s)
    ensures InTable(r)
  {
    Switch(Wake(s, now), Chosen(Wake(s, now)))
  }

  // ----- Sleeping, exiting, reaping, discarding -----

  function Park(s: System, wake: u64): (r: System)
    requires InTable(s)
    ensures InTable(r)
  {
    if s.current == IDLE then s else
      var p := s.procs[s.current].(state := Blocked, wakeAt := wake);
      s.(procs := s.procs[s.current := p], ring := Without(s.ring, s.current) + [s.current])
  }

  /** Drop one hold on the address space; the last hold takes the space with it. */
  function Release(s: System, i: nat): (r: System)
    requires InTable(s) && i < MAX_PROCESSES
    requires s.procs[i].vm.Some? ==> s.procs[i].vm.value in s.spaces
    ensures InTable(r)
  {
    if s.procs[i].vm.None? then s else
      var v := s.procs[i].vm.value;
      var space := s.spaces[v];
      s.(procs := s.procs[i := s.procs[i].(vm := None)],
         spaces := if space.refCount <= 1 then s.spaces - {v} else s.spaces[v := space.(refCount := space.refCount - 1)])
  }

  function Decrement(active: nat): nat {
    if active > 0 then active - 1 else 0
  }

  /** What a zombie keeps of its slot: a user process gives up its stack and TLS pages. */
  function Buried(p: Process): Process {
    if p.userEntry == 0 then p.(state := Zombie)
    else p.(state := Zombie, stackTop := 0, stackBottom := 0, tlsBottom := 0)
  }

  function MarkZombie(s: System, i: nat): (r: System)
    requires InTable(s) && i < MAX_PROCESSES
    requires s.procs[i].vm.Some? ==> s.procs[i].vm.value in s.spaces
    ensures InTable(r)
  {
    Release(s.(procs := s.procs[i := Buried(s.procs[i])], ring := Without(s.ring, i), active := Decrement(s.active)), i)
  }

  function Exit(s: System, now: nat): (r: System)
    requires InTable(s)
    requires s.procs[s.current].vm.Some? ==> s.procs[s.current].vm.value in s.spaces
    ensures InTable(r)
  {
    Schedule(if s.current == IDLE then s else MarkZombie(s, s.current), now)
  }

  function Freed(p: Process): Process {
    p.(vm := None, state := Unused)
  }

  function Reap(s: System, i: nat): (r: System)
    requires InTable(s) && i < MAX_PROCESSES
    ensures InTable(r)
  {
    if s.procs[i].state.Zombie? then
      s.(procs := s.procs[i := Freed(s.procs[i])], ring := Without(s.ring, i))
    else s
  }

  function Discard(s: System, i: nat): (r: System)
    requires InTable(s) && i < MAX_PROCESSES
    requires s.procs[i].vm.Some? ==> s.procs[i].vm.value in s.spaces
    ensures InTable(r)
  {
    var left := Release(s.(ring := Without(s.ring, i)), i);
    left.(procs := left.procs[i := Freed(left.procs[i])], active := Decrement(left.active))
  }

  // ----- Creating -----

  function FreeSlot(procs: seq<Process>, from: nat): (slot: Option<nat>)
    requires from <= |procs|
    ensures slot.Some? ==> from <= slot.value < |procs| && procs[slot.value].state.Unused?
    ensures slot.None? ==> forall i :: from <= i < |procs| ==> !procs[i].state.Unused?
    decreases |procs| - from
  {
    if from == |procs| then None
    else if procs[from].state.Unused? then Some(from)
    else FreeSlot(procs, from + 1)
  }

  predicate PidTaken(procs: seq<Process>, pid: int) {
    exists i :: 0 <= i < |procs| && !procs[i].state.Unused? && procs[i].pid == pid
  }

  /** The lowest pid no live slot holds. */
  function FreePid(procs: seq<Process>, from: nat): (pid: int)
    requires 1 <= from <= MAX_PROCESSES
    ensures pid == -1 || (from <= pid < MAX_PROCESSES && !PidTaken(procs, pid))
    ensures pid == -1 ==> forall q :: from <= q < MAX_PROCESSES ==> PidTaken(procs, q)
    decreases MAX_PROCESSES - from
  {
    if from == MAX_PROCESSES then -1
    else if PidTaken(procs, from) then FreePid(procs, from + 1)
    else from
  }

  function Put(s: System, i: nat, p: Process): (r: System)
    requires InTable(s) && i < MAX_PROCESSES
    ensures InTable(r)
  {
    s.(procs := s.procs[i := p])
  }

  function Append(s: System, i: nat): (r: System)
    requires InTable(s) && i < MAX_PROCESSES
    ensures InTable(r)
  {
    s.(ring := s.ring + [i], active := s.active + 1)
  }

  function Newborn(pid: int, entry: u64, stackTop: u64, stackBottom: u64): Process {
    Process(Ready, pid, pid, 0, SCHED_TICKS_PER_SLICE, None, entry, stackTop, stackBottom, stackBottom)
  }

  /** A new process, or an unchanged ring when the table, the pids or the kernel heap is exhausted. */
  function Create(s: System, entry: u64, stackTop: u64, stackBottom: u64, gotStack: bool): (r: System)
    requires InTable(s)
    ensures InTable(r)
  {
    match FreeSlot(s.procs, 0)
    case None => s
    case Some(i) =>
      var pid := FreePid(s.procs[i := BLANK], 1);
      if pid < 0 then Put(s, i, BLANK.(pid := pid))
      else if !gotStack then Put(s, i, Freed(Newborn(pid, entry, stackTop, stackBottom)))
      else Append(Put(s, i, Newborn(pid, entry, stackTop, stackBottom)), i)
  }

  // ----- Address spaces and thread regions -----

  function AlignDown(x: u64, to: u64): (r: u64)
    requires to > 0
  {
    x - x % to
  }

  function AlignUp(x: u64, to: u64): (r: u64)
    requires to > 0
  {
    (x + to - 1 - (x + to - 1) % to) % WRAP
  }

  function Sub64(x: u64, y: u64): (r: u64) {
    if y <= x then x - y else x + WRAP - y
  }

  function StackReserve(lowerLimit: u64, stackTop: u64): (reserve: u64) {
    var lower, top := AlignUp(lowerLimit, PAGE_SIZE), AlignDown(stackTop, PAGE_SIZE);
    if top <= lower || top - lower < USER_STACK_INITIAL_COMMIT_SIZE then 0
    else
      var reserve := AlignDown((top - lower) / MAX_PROCESSES, PAGE_SIZE);
      if reserve < USER_STACK_INITIAL_COMMIT_SIZE then USER_STACK_INITIAL_COMMIT_SIZE else reserve
  }

  /** The bits of `x` that `mask` does not have. */
  function Cleared(x: nat, mask: nat): (r: nat)
    ensures r <= x
  {
    if x == 0 then 0 else 2 * Cleared(x / 2, mask / 2) + if mask % 2 == 1 then 0 else x % 2
  }

  function Mask(align: u64): u64 {
    if align == 0 then 0 else align - 1
  }

  /** The size of a TLS block: the sum wraps at 64 bits, and the mask is taken as it is, whatever the alignment. */
  function TlsBlock(memsz: u64, align: u64): u64 {
    Cleared((memsz + Mask(align)) % WRAP, Mask(align))
  }

  /** The lowest TLS page under `top`; both subtractions wrap at 64 bits. */
  function TlsBottom(top: u64, block: u64): u64 {
    AlignDown(Sub64(Sub64(top, block), USER_TLS_TCB_SIZE), PAGE_SIZE)
  }

  /** A thread's stack and TLS region carved from below the space's cursor; the cursor moves only on success. */
  function Carve(p: Process, space: VmSpace, stackFrames: bool, tlsFrames: bool): (r: (bool, Process, VmSpace)) {
    var top := space.stackCursor;
    var reserve := StackReserve(space.loadEnd, top);
    if reserve == 0 then (false, p, space)
    else
      var bottom := Sub64(top, reserve);
      if bottom <= space.loadEnd || !stackFrames then (false, p, space)
      else
        var stacked := p.(stackBottom := bottom, stackTop := AlignDown(Sub64(top, 8), 16), tlsBottom := bottom);
        if space.tlsMemsz == 0 then (true, stacked, space.(stackCursor := bottom))
        else
          var tls := TlsBottom(bottom, TlsBlock(space.tlsMemsz, space.tlsAlign));
          if tls <= space.loadEnd || !tlsFrames then (false, stacked, space)
          else (true, stacked.(tlsBottom := tls), space.(stackCursor := tls))
  }

  /** A filled slot given up again: its hold released, the slot free. */
  function GaveUp(filled: System, i: nat): (r: System)
    requires InTable(filled) && i < MAX_PROCESSES
    requires filled.procs[i].vm.Some? ==> filled.procs[i].vm.value in filled.spaces
    ensures InTable(r)
  {
    var left := Release(filled, i);
    Put(left, i, Freed(left.procs[i]))
  }

  function ThreadOf(p: Process, pid: int, entry: u64): Process {
    Newborn(pid, entry, 0, 0).(groupId := p.groupId, vm := p.vm)
  }

  function Retained(space: VmSpace): VmSpace {
    space.(refCount := space.refCount + 1)
  }

  function Fill(s: System, i: nat, p: Process, v: nat, space: VmSpace): (r: System)
    requires InTable(s) && i < MAX_PROCESSES
    ensures InTable(r)
  {
    s.(procs := s.procs[i := p], spaces := s.spaces[v := space])
  }

  /** A thread sharing the current process's address space. */
  function SpawnThread(s: System, entry: u64, gotStack: bool, stackFrames: bool, tlsFrames: bool): (r: System)
    requires InTable(s)
    requires s.procs[s.current].vm.Some? ==> s.procs[s.current].vm.value in s.spaces
    ensures InTable(r)
  {
    if s.procs[s.current].vm.None? || FreeSlot(s.procs, 0).None? then s
    else
      var i, v := FreeSlot(s.procs, 0).value, s.procs[s.current].vm.value;
      var pid := FreePid(s.procs[i := BLANK], 1);
      if pid < 0 then Put(s, i, BLANK.(pid := pid))
      else
        var p, space := ThreadOf(s.procs[s.current], pid, entry), Retained(s.spaces[v]);
        if !gotStack then GaveUp(Fill(s, i, p, v, space), i)
        else
          var carved := Carve(p, space, stackFrames, tlsFrames);
          var filled := Fill(s, i, carved.1, v, carved.2);
          if carved.0 then Append(filled, i) else GaveUp(filled, i)
  }

  /** The main thread's TLS under its stack. */
  function MainTls(p: Process, space: VmSpace, frames: bool): (r: (bool, Process, VmSpace)) {
    var flat := p.(tlsBottom := p.stackBottom);
    if space.tlsMemsz == 0 then (true, flat, space.(stackCursor := p.stackBottom))
    else
      var tls := TlsBottom(p.stackBottom, TlsBlock(space.tlsMemsz, space.tlsAlign));
      if tls < space.loadEnd || !frames then (false, flat, space)
      else (true, p.(tlsBottom := tls), space.(stackCursor := tls))
  }

  function SpaceFor(image: Image): VmSpace {
    VmSpace(1, image.loadBase, image.loadEnd, image.stackBottom, image.tlsMemsz,
            if image.tlsAlign == 0 then 1 else image.tlsAlign)
  }

  function Configure(s: System, i: nat, image: Image, key: Option<nat>, frames: bool): (r: System)
    requires InTable(s) && i < MAX_PROCESSES
    ensures InTable(r)
  {
    match key
    case None => s
    case Some(v) =>
      var mapped := MainTls(s.procs[i].(vm := key), SpaceFor(image), frames);
      var filled := Fill(s, i, mapped.1, v, mapped.2);
      if mapped.0 then filled else Release(filled, i)
  }

  // ----- Timer -----

  function Ticked(p: Process): Process {
    var left := if p.ticks > 0 then p.ticks - 1 else p.ticks;
    p.(ticks := if left == 0 then SCHED_TICKS_PER_SLICE else left)
  }

  function Tick(s: System, now: nat): (r: System)
    requires InTable(s)
    ensures InTable(r)
  {
    var w := Wake(s, now);
    w.(procs := w.procs[s.current := Ticked(w.procs[s.current])])
  }
}
