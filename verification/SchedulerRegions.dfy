/** Where thread stacks and TLS blocks lie inside a shared address space. */
module SchedulerRegions {
  import opened Bytes
  import opened SchedulerSpec
  import opened SchedulerSafety

  /** The page above a process's stack, as `process_mark_zombie` recomputes it for unmapping. */
  ghost function Top(p: Process): int {
    AlignUp((p.stackTop + 8) % WRAP, PAGE_SIZE)
  }

  ghost predicate Apart(p: Process, q: Process) {
    Top(p) <= q.tlsBottom || Top(q) <= p.tlsBottom
  }

  ghost predicate SpaceOk(space: VmSpace) {
    space.stackCursor % PAGE_SIZE == 0 && space.loadEnd <= space.stackCursor
  }

  /** All regions of one space lie above its image and cursor and are pairwise disjoint. */
  ghost predicate RegionsOk(s: System) {
    && (forall v :: v in s.spaces ==> SpaceOk(s.spaces[v]))
    && (forall i: nat :: i < |s.procs| && s.procs[i].vm.Some? ==>
          && s.procs[i].vm.value in s.spaces
          && s.spaces[s.procs[i].vm.value].stackCursor <= s.procs[i].tlsBottom <= Top(s.procs[i]))
    && (forall i: nat, j: nat :: i < j < |s.procs| && s.procs[i].vm.Some? && s.procs[i].vm == s.procs[j].vm ==>
          Apart(s.procs[i], s.procs[j]))
  }

  // ----- Carving one region -----

  lemma AlignedTop(cursor: u64)
    requires cursor % PAGE_SIZE == 0 && cursor >= PAGE_SIZE
    ensures AlignUp((AlignDown(Sub64(cursor, 8), 16) + 8) % WRAP, PAGE_SIZE) == cursor
  {
    var k := cursor / PAGE_SIZE;
    assert (cursor - 8) % 16 == 8;
    assert AlignDown(Sub64(cursor, 8), 16) + 8 == PAGE_SIZE * k - 8;
    assert (PAGE_SIZE * k + 4087) % PAGE_SIZE == 4087;
  }

  lemma ReserveFits(loadEnd: u64, cursor: u64)
    requires cursor % PAGE_SIZE == 0 && loadEnd <= cursor
    ensures StackReserve(loadEnd, cursor) <= cursor && StackReserve(loadEnd, cursor) % PAGE_SIZE == 0
  {
    var lower, top := AlignUp(loadEnd, PAGE_SIZE), AlignDown(cursor, PAGE_SIZE);
    if lower + USER_STACK_INITIAL_COMMIT_SIZE <= top { PageAligned((top - lower) / MAX_PROCESSES); }
  }

  lemma PageAligned(x: u64)
    ensures AlignDown(x, PAGE_SIZE) <= x && AlignDown(x, PAGE_SIZE) % PAGE_SIZE == 0
  {
    assert x - x % PAGE_SIZE == PAGE_SIZE * (x / PAGE_SIZE);
  }

  // ----- Alignment by a mask -----

  lemma {:induction false} ClearedNone(x: nat)
    ensures Cleared(x, 0) == x
  {
    if x > 0 { ClearedNone(x / 2); }
  }

  /** Clearing the bits of a mask takes away no more than the mask. */
  lemma {:induction false} ClearedCovers(x: nat, mask: nat)
    ensures x <= Cleared(x, mask) + mask
  {
    if x > 0 { ClearedCovers(x / 2, mask / 2); }
  }

  /** A bit above the mask stays. */
  lemma {:induction false} ClearedHigh(x: nat, mask: nat, n: nat)
    requires Pow2(n) <= x && mask < Pow2(n)
    ensures Pow2(n) <= Cleared(x, mask)
    decreases n
  {
    if n == 0 { ClearedNone(x); } else { ClearedHigh(x / 2, mask / 2, n - 1); }
  }

  lemma ModTwice(x: nat, p: nat)
    requires 0 < p
    ensures x % (2 * p) == 2 * (x / 2 % p) + x % 2
  {
    var y := x / 2;
    var q, r := y / p, y % p;
    assert x == q * (2 * p) + (2 * r + x % 2);
    DivModUnique(q, 2 * r + x % 2, 2 * p);
  }

  lemma ClearedStep(x: nat, half: nat)
    requires 0 < half
    ensures Cleared(x, 2 * half - 1) == 2 * Cleared(x / 2, half - 1)
  {
    assert (2 * half - 1) / 2 == half - 1 && (2 * half - 1) % 2 == 1;
  }

  /** For a power of two the mask rounds to a multiple, as `AlignDown` and `AlignUp` do. */
  lemma {:induction false} ClearedIsAligned(x: nat, k: nat, p: nat)
    requires p == Pow2(k)
    ensures Cleared(x, p - 1) == x - x % p
    decreases k
  {
    if k == 0 {
      ClearedNone(x);
    } else {
      var half := Pow2(k - 1);
      ClearedStep(x, half);
      ClearedIsAligned(x / 2, k - 1, half);
      ModTwice(x, half);
    }
  }

  // ----- TLS blocks -----

  /** What a TLS block takes, rounded up without wrapping. */
  ghost function Rounded(memsz: u64, align: u64): (r: nat)
    ensures memsz <= r
  {
    ClearedCovers(memsz + Mask(align), Mask(align));
    Cleared(memsz + Mask(align), Mask(align))
  }

  lemma {:induction false} Pow2Adds(a: nat, b: nat)
    ensures Pow2(a + b) == Pow2(a) * Pow2(b)
    decreases a
  {
    if a > 0 { Pow2Adds(a - 1, b); }
  }

  lemma WrapIsPow2()
    ensures Pow2(64) == WRAP
  {
    assert Pow2(8) == 0x100;
    Pow2Adds(8, 8);
    Pow2Adds(16, 16);
    Pow2Adds(32, 32);
  }

  /** The rounding wraps only for blocks that are larger than the whole address space. */
  lemma RoundedOrHuge(memsz: u64, align: u64)
    ensures TlsBlock(memsz, align) == Rounded(memsz, align) || WRAP <= Rounded(memsz, align)
  {
    WrapIsPow2();
    if memsz + Mask(align) >= WRAP { ClearedHigh(memsz + Mask(align), Mask(align), 64); }
  }

  /** How far below `top` the two wrapping subtractions lead, before the page is rounded down. */
  function Drop(block: u64): u64 {
    (block + USER_TLS_TCB_SIZE) % WRAP
  }

  lemma BottomIs(top: u64, block: u64)
    ensures var at := if Drop(block) <= top then top - Drop(block) else top + WRAP - Drop(block);
      at < WRAP && TlsBottom(top, block) == AlignDown(at, PAGE_SIZE)
  {
  }

  lemma PagesOrdered(page: u64, x: u64)
    requires page % PAGE_SIZE == 0
    ensures AlignDown(x, PAGE_SIZE) <= page <==> x < page + PAGE_SIZE
  {
    var p, q := page / PAGE_SIZE, x / PAGE_SIZE;
    assert page == PAGE_SIZE * p && AlignDown(x, PAGE_SIZE) == PAGE_SIZE * q;
  }

  /**
    The subtractions that place a TLS block wrap exactly when the block and its header do not fit below `top`; and they
    leave the bottom above `top` except when they wrap to within a page of it.
   */
  lemma TlsPlaced(top: u64, block: u64)
    requires top % PAGE_SIZE == 0
    ensures TlsBottom(top, block) % PAGE_SIZE == 0
    ensures TlsBottom(top, block) + block + USER_TLS_TCB_SIZE <= top <==> block + USER_TLS_TCB_SIZE <= top
    ensures TlsBottom(top, block) <= top <==> Drop(block) <= top || WRAP < Drop(block) + PAGE_SIZE
  {
    BottomIs(top, block);
    var at := if Drop(block) <= top then top - Drop(block) else top + WRAP - Drop(block);
    PageAligned(at);
    PagesOrdered(top, at);
  }

  /** Below its stack a thread finds this much room. */
  ghost function Room(space: VmSpace): int {
    space.stackCursor - StackReserve(space.loadEnd, space.stackCursor)
  }

  /** The block and its header fit below `top`. */
  ghost predicate TlsFits(space: VmSpace, top: int) {
    space.tlsMemsz != 0 ==> Rounded(space.tlsMemsz, space.tlsAlign) + USER_TLS_TCB_SIZE <= top
  }

  /** The bottom computed for the block is not above `top`. */
  ghost predicate TlsBelow(space: VmSpace, top: int) {
    space.tlsMemsz != 0 ==>
      var drop := Drop(TlsBlock(space.tlsMemsz, space.tlsAlign));
      drop <= top || WRAP < drop + PAGE_SIZE
  }

  lemma CarvedShape(p: Process, space: VmSpace, stackFrames: bool, tlsFrames: bool)
    requires Carve(p, space, stackFrames, tlsFrames).0
    ensures var q, reserve := Carve(p, space, stackFrames, tlsFrames).1, StackReserve(space.loadEnd, space.stackCursor);
      && 0 < reserve && q.stackBottom == Sub64(space.stackCursor, reserve) && space.loadEnd < q.stackBottom
      && q.stackTop == AlignDown(Sub64(space.stackCursor, 8), 16)
  {
  }

  lemma BottomAligned(cursor: u64, reserve: u64)
    requires cursor % PAGE_SIZE == 0 && reserve % PAGE_SIZE == 0 && 0 < reserve <= cursor
    ensures Sub64(cursor, reserve) < cursor && Sub64(cursor, reserve) % PAGE_SIZE == 0
  {
  }

  lemma CarvedStack(p: Process, space: VmSpace, stackFrames: bool, tlsFrames: bool)
    requires SpaceOk(space) && Carve(p, space, stackFrames, tlsFrames).0
    ensures var q := Carve(p, space, stackFrames, tlsFrames).1;
      && space.loadEnd < q.stackBottom < space.stackCursor && q.stackBottom % PAGE_SIZE == 0
      && q.stackTop == AlignDown(Sub64(space.stackCursor, 8), 16)
  {
    CarvedShape(p, space, stackFrames, tlsFrames);
    ReserveFits(space.loadEnd, space.stackCursor);
    BottomAligned(space.stackCursor, StackReserve(space.loadEnd, space.stackCursor));
  }

  lemma CarvedCursor(p: Process, space: VmSpace, stackFrames: bool, tlsFrames: bool)
    requires SpaceOk(space) && Carve(p, space, stackFrames, tlsFrames).0
    ensures var r := Carve(p, space, stackFrames, tlsFrames);
      && r.2 == space.(stackCursor := r.1.tlsBottom) && space.loadEnd < r.1.tlsBottom
      && r.1.tlsBottom == if space.tlsMemsz == 0 then r.1.stackBottom
                          else TlsBottom(r.1.stackBottom, TlsBlock(space.tlsMemsz, space.tlsAlign))
  {
  }

  lemma RoomIs(p: Process, space: VmSpace, stackFrames: bool, tlsFrames: bool)
    requires SpaceOk(space) && Carve(p, space, stackFrames, tlsFrames).0
    ensures Carve(p, space, stackFrames, tlsFrames).1.stackBottom == Room(space)
  {
    CarvedShape(p, space, stackFrames, tlsFrames);
    ReserveFits(space.loadEnd, space.stackCursor);
  }

  /**
    A carved region ends where the cursor was, starts where it now is, and stays above the image; and it holds its stack
    if and only if the bottom computed for the TLS block is not above it.
   */
  lemma CarvedRegion(p: Process, space: VmSpace, stackFrames: bool, tlsFrames: bool)
    requires SpaceOk(space) && Carve(p, space, stackFrames, tlsFrames).0
    ensures var r := Carve(p, space, stackFrames, tlsFrames);
      && SpaceOk(r.2) && r.2.loadEnd == space.loadEnd
      && space.loadEnd < r.2.stackCursor == r.1.tlsBottom && r.1.stackBottom < Top(r.1) == space.stackCursor
      && (r.1.tlsBottom <= r.1.stackBottom <==> TlsBelow(space, Room(space)))
  {
    var r := Carve(p, space, stackFrames, tlsFrames);
    assert Top(r.1) == space.stackCursor by {
      CarvedStack(p, space, stackFrames, tlsFrames);
      AlignedTop(space.stackCursor);
    }
    CarvedStack(p, space, stackFrames, tlsFrames);
    CarvedCursor(p, space, stackFrames, tlsFrames);
    RoomIs(p, space, stackFrames, tlsFrames);
    TlsPlaced(r.1.stackBottom, TlsBlock(space.tlsMemsz, space.tlsAlign));
  }

  /**
    The thread's TLS block lies inside its region if and only if the block, rounded up as it should be, and its header fit
    in the room below the stack. The caller can tell before the call.
   */
  lemma CarvedTls(p: Process, space: VmSpace, stackFrames: bool, tlsFrames: bool)
    requires SpaceOk(space) && Carve(p, space, stackFrames, tlsFrames).0 && space.tlsMemsz != 0
    ensures var q, block := Carve(p, space, stackFrames, tlsFrames).1, Rounded(space.tlsMemsz, space.tlsAlign);
      q.tlsBottom + block + USER_TLS_TCB_SIZE <= q.stackBottom <==> TlsFits(space, Room(space))
  {
    CarvedStack(p, space, stackFrames, tlsFrames);
    CarvedCursor(p, space, stackFrames, tlsFrames);
    RoomIs(p, space, stackFrames, tlsFrames);
    RoundedOrHuge(space.tlsMemsz, space.tlsAlign);
    TlsPlaced(Carve(p, space, stackFrames, tlsFrames).1.stackBottom, TlsBlock(space.tlsMemsz, space.tlsAlign));
  }

  /** A space as the loader leaves it, with a TLS segment of the given size. */
  function Example(memsz: u64): VmSpace {
    VmSpace(1, 0x40_0000, 0x50_0000, 0x8000_0000, memsz, 16)
  }

  /** A size whose rounding wraps to nothing: the region is carved, and the block does not fit in it. */
  lemma RoundingWraps(p: Process)
    ensures var space := Example(0xFFFF_FFFF_FFFF_FFFF);
      var r := Carve(p, space, true, true);
      && SpaceOk(space) && r.0 && !TlsFits(space, Room(space)) && r.1.stackBottom < r.1.tlsBottom + space.tlsMemsz
  {
    var space := Example(0xFFFF_FFFF_FFFF_FFFF);
    assert Pow2(4) == 16;
    ClearedIsAligned(14, 4, 16);
    assert TlsBlock(space.tlsMemsz, space.tlsAlign) == 0;
  }

  lemma AllButOne(q: nat, align: nat)
    requires 0 < align
    ensures (q * align + align - 1) % align == align - 1
  {
    DivModUnique(q, align - 1, align);
  }

  lemma NoWrap(x: nat)
    requires x < WRAP
    ensures x % WRAP == x
  {
  }

  /** A multiple of a power of two is rounded to itself. */
  lemma WholeBlock(memsz: u64, q: nat, k: nat, align: u64)
    requires align == Pow2(k) && memsz == q * align && memsz + align <= WRAP
    ensures TlsBlock(memsz, align) == memsz == Rounded(memsz, align)
  {
    var x := memsz + align - 1;
    assert Cleared(x, align - 1) == memsz by {
      AllButOne(q, align);
      ClearedIsAligned(x, k, align);
    }
    NoWrap(x);
  }

  lemma ExampleRoom(memsz: u64)
    ensures SpaceOk(Example(memsz)) && 0x50_0000 < Room(Example(memsz)) < 0x8000_0000 && Room(Example(memsz)) % PAGE_SIZE == 0
  {
    assert AlignUp(0x50_0000, PAGE_SIZE) == 0x50_0000 && AlignDown(0x8000_0000, PAGE_SIZE) == 0x8000_0000;
    ReserveFits(0x50_0000, 0x8000_0000);
  }

  /** Sizes whose placement wraps: the region is carved, and the cursor moves above where it was. */
  lemma PlacementWraps(p: Process, memsz: u64)
    requires memsz % 16 == 0 && 0x8000_0000 <= memsz <= 0xFFFF_FFFF_0000_0000
    ensures var space := Example(memsz);
      var r := Carve(p, space, true, true);
      && SpaceOk(space) && r.0 && !TlsFits(space, Room(space)) && space.stackCursor < r.2.stackCursor
  {
    var space := Example(memsz);
    assert Pow2(4) == 16;
    WholeBlock(memsz, memsz / 16, 4, space.tlsAlign);
    ExampleRoom(memsz);
    var at := Room(space) + WRAP - memsz - USER_TLS_TCB_SIZE;
    BottomIs(Room(space), memsz);
    PagesOrdered(0x8000_0000, at);
  }

  // ----- Every step -----

  ghost predicate SameRegion(p: Process, q: Process) {
    p.vm == q.vm && p.stackTop == q.stackTop && p.tlsBottom == q.tlsBottom
  }

  ghost predicate SamePlace(a: VmSpace, b: VmSpace) {
    a.stackCursor == b.stackCursor && a.loadEnd == b.loadEnd
  }

  /** Nothing new is placed: spaces and regions only disappear. */
  ghost predicate Shrinks(s: System, r: System) {
    && |r.procs| == |s.procs|
    && (forall v :: v in r.spaces ==> v in s.spaces && SamePlace(s.spaces[v], r.spaces[v]))
    && (forall i: nat :: i < |r.procs| && r.procs[i].vm.Some? ==>
          r.procs[i].vm.value in r.spaces && SameRegion(s.procs[i], r.procs[i]))
  }

  lemma ShrinksKeeps(s: System, r: System)
    requires RegionsOk(s) && Shrinks(s, r)
    ensures RegionsOk(r)
  {
    forall i: nat, j: nat | i < j < |r.procs| && r.procs[i].vm.Some? && r.procs[i].vm == r.procs[j].vm
      ensures Apart(r.procs[i], r.procs[j])
    {
      assert SameRegion(s.procs[i], r.procs[i]) && SameRegion(s.procs[j], r.procs[j]);
      assert Apart(s.procs[i], s.procs[j]);
    }
    forall i: nat | i < |r.procs| && r.procs[i].vm.Some?
      ensures r.spaces[r.procs[i].vm.value].stackCursor <= r.procs[i].tlsBottom <= Top(r.procs[i])
    {
      assert SameRegion(s.procs[i], r.procs[i]);
    }
  }

  /** A region placed under the cursor is apart from every region already there. */
  lemma PlacedBelow(s: System, i: nat, p: Process, v: nat, space: VmSpace)
    requires InTable(s) && RegionsOk(s) && i < MAX_PROCESSES && s.procs[i].vm.None? && p.vm == Some(v)
    requires SpaceOk(space) && space.stackCursor <= p.tlsBottom <= Top(p)
    requires v in s.spaces ==> space.stackCursor <= s.spaces[v].stackCursor && Top(p) <= s.spaces[v].stackCursor
    ensures RegionsOk(Fill(s, i, p, v, space))
  {
    var r := Fill(s, i, p, v, space);
    forall j: nat | j < |r.procs| && j != i && r.procs[j].vm == Some(v) ensures Apart(p, r.procs[j]) && Apart(r.procs[j], p) {
      assert s.procs[j] == r.procs[j];
    }
  }

  // ----- What has to hold of a new image and of its TLS sizes -----

  ghost predicate Roomy(s: System, e: Event)
    requires Safe(s) && Allowed(s, e)
  {
    match e
    case CreateThread(entry, _, stackFrames, tlsFrames) =>
      s.procs[s.current].vm.Some? ==>
        var space := s.spaces[s.procs[s.current].vm.value];
        var carved := Carve(BLANK, space, stackFrames, tlsFrames);
        carved.0 ==> TlsBelow(space, Room(space))
    case ConfigureImage(i, image, _, _) =>
      && image.stackBottom == s.procs[i].stackBottom && image.stackBottom % PAGE_SIZE == 0
      && image.loadEnd <= image.stackBottom <= Top(s.procs[i]) && TlsBelow(SpaceFor(image), image.stackBottom)
    case _ => true
  }

  lemma ShrinksTwice(s: System, t: System, r: System)
    requires Shrinks(s, t) && Shrinks(t, r)
    ensures Shrinks(s, r)
  {
  }

  lemma WakeShrinks(s: System, now: nat)
    requires InTable(s) && CountsOk(s)
    ensures InTable(Wake(s, now)) && CountsOk(Wake(s, now)) && Shrinks(s, Wake(s, now))
  {
    SameHolders(s, Wake(s, now));
  }

  lemma ScheduleShrinks(s: System, now: nat)
    requires InTable(s) && CountsOk(s)
    ensures Shrinks(s, Schedule(s, now))
  {
    WakeShrinks(s, now);
    SwitchShrinks(Wake(s, now), Chosen(Wake(s, now)));
    ShrinksTwice(s, Wake(s, now), Schedule(s, now));
  }

  lemma ParkShrinks(s: System, wake: u64)
    requires InTable(s) && CountsOk(s)
    ensures CountsOk(Park(s, wake)) && Shrinks(s, Park(s, wake))
  {
    SameHolders(s, Park(s, wake));
  }

  lemma SleepShrinks(s: System, wake: u64, now: nat)
    requires InTable(s) && CountsOk(s)
    ensures Shrinks(s, Schedule(Park(s, wake), now))
  {
    ParkShrinks(s, wake);
    ScheduleShrinks(Park(s, wake), now);
    ShrinksTwice(s, Park(s, wake), Schedule(Park(s, wake), now));
  }

  lemma TickShrinks(s: System, now: nat)
    requires InTable(s) && CountsOk(s)
    ensures Shrinks(s, Tick(s, now))
  {
    WakeShrinks(s, now);
    assert Shrinks(Wake(s, now), Tick(s, now));
    ShrinksTwice(s, Wake(s, now), Tick(s, now));
  }

  lemma CreateShrinks(s: System, entry: u64, stackTop: u64, stackBottom: u64, gotStack: bool)
    requires InTable(s) && CountsOk(s)
    ensures Shrinks(s, Create(s, entry, stackTop, stackBottom, gotStack))
  {
  }

  lemma SwitchShrinks(s: System, n: nat)
    requires InTable(s) && CountsOk(s) && n < MAX_PROCESSES
    ensures Shrinks(s, Switch(s, n))
  {
  }

  lemma ExitShrinks(s: System, now: nat)
    requires InTable(s) && CountsOk(s)
    ensures Shrinks(s, Exit(s, now))
  {
    if s.current == IDLE {
      ScheduleShrinks(s, now);
    } else {
      MarkZombieShape(s, s.current);
      MarkZombieShrinks(s, s.current);
      ScheduleShrinks(MarkZombie(s, s.current), now);
      ShrinksTwice(s, MarkZombie(s, s.current), Exit(s, now));
    }
  }

  lemma MarkZombieShrinks(s: System, i: nat)
    requires InTable(s) && CountsOk(s) && i < MAX_PROCESSES
    ensures Shrinks(s, MarkZombie(s, i))
  {
    MarkZombieShape(s, i);
  }

  lemma DiscardShrinks(s: System, i: nat)
    requires InTable(s) && CountsOk(s) && i < MAX_PROCESSES
    ensures Shrinks(s, Discard(s, i))
  {
    DiscardShape(s, i);
  }

  /** A filled slot that is given up puts nothing in the space. */
  lemma GaveUpShrinks(s: System, i: nat, p: Process, v: nat, space: VmSpace)
    requires InTable(s) && CountsOk(s) && i < MAX_PROCESSES && s.procs[i].vm.None? && p.vm == Some(v)
    requires v in s.spaces && space.refCount == s.spaces[v].refCount + 1 && SamePlace(s.spaces[v], space)
    ensures CountsOk(Fill(s, i, p, v, space)) && Shrinks(s, GaveUp(Fill(s, i, p, v, space), i))
  {
    HoldKeeps(s, i, p, v, space);
    ReleaseKeeps(Fill(s, i, p, v, space), i);
  }

  lemma CarveIgnores(p: Process, space: VmSpace, stackFrames: bool, tlsFrames: bool)
    ensures var a, b := Carve(p, Retained(space), stackFrames, tlsFrames), Carve(BLANK, space, stackFrames, tlsFrames);
      && a.0 == b.0 && (a.0 ==> a.1.stackBottom == b.1.stackBottom)
      && (!a.0 ==> a.2 == Retained(space))
  {
  }

  lemma AbandonedKeepsRegions(s: System, i: nat, p: Process, v: nat, space: VmSpace)
    requires InTable(s) && CountsOk(s) && RegionsOk(s) && i < MAX_PROCESSES && s.procs[i].vm.None? && p.vm == Some(v)
    requires v in s.spaces && space.refCount == s.spaces[v].refCount + 1 && SamePlace(s.spaces[v], space)
    ensures CountsOk(Fill(s, i, p, v, space)) && RegionsOk(GaveUp(Fill(s, i, p, v, space), i))
  {
    GaveUpShrinks(s, i, p, v, space);
    ShrinksKeeps(s, GaveUp(Fill(s, i, p, v, space), i));
  }

  lemma CarvedKeepsRegions(s: System, i: nat, p: Process, v: nat, stackFrames: bool, tlsFrames: bool)
    requires InTable(s) && RegionsOk(s) && i < MAX_PROCESSES && s.procs[i].vm.None? && p.vm == Some(v) && v in s.spaces
    requires Carve(p, Retained(s.spaces[v]), stackFrames, tlsFrames).0
    requires TlsBelow(s.spaces[v], Room(s.spaces[v]))
    ensures var carved := Carve(p, Retained(s.spaces[v]), stackFrames, tlsFrames);
      RegionsOk(Append(Fill(s, i, carved.1, v, carved.2), i))
  {
    var carved := Carve(p, Retained(s.spaces[v]), stackFrames, tlsFrames);
    CarvedRegion(p, Retained(s.spaces[v]), stackFrames, tlsFrames);
    CarveTouches(p, Retained(s.spaces[v]), stackFrames, tlsFrames);
    PlacedBelow(s, i, carved.1, v, carved.2);
  }

  lemma ThreadKeepsRegions(s: System, entry: u64, gotStack: bool, stackFrames: bool, tlsFrames: bool)
    requires Safe(s) && RegionsOk(s) && Roomy(s, CreateThread(entry, gotStack, stackFrames, tlsFrames))
    ensures RegionsOk(SpawnThread(s, entry, gotStack, stackFrames, tlsFrames))
  {
    if s.procs[s.current].vm.Some? && FreeSlot(s.procs, 0).Some? {
      var i, v := FreeSlot(s.procs, 0).value, s.procs[s.current].vm.value;
      FreeSlotHasPid(s.procs);
      var p := ThreadOf(s.procs[s.current], FreePid(s.procs[i := BLANK], 1), entry);
      var space, r := Retained(s.spaces[v]), SpawnThread(s, entry, gotStack, stackFrames, tlsFrames);
      var carved := Carve(p, space, stackFrames, tlsFrames);
      CarveTouches(p, space, stackFrames, tlsFrames);
      CarveIgnores(p, s.spaces[v], stackFrames, tlsFrames);
      if !gotStack {
        AbandonedKeepsRegions(s, i, p, v, space);
        assert r == GaveUp(Fill(s, i, p, v, space), i);
      } else if carved.0 {
        CarvedKeepsRegions(s, i, p, v, stackFrames, tlsFrames);
        assert r == Append(Fill(s, i, carved.1, v, carved.2), i);
      } else {
        AbandonedKeepsRegions(s, i, carved.1, v, carved.2);
        assert r == GaveUp(Fill(s, i, carved.1, v, carved.2), i);
      }
    }
  }

  /** The same for the main thread, below the stack the loader gave it. */
  lemma MainTlsExact(p: Process, space: VmSpace, frames: bool)
    requires MainTls(p, space, frames).0 && space.tlsMemsz != 0 && p.stackBottom % PAGE_SIZE == 0
    ensures var q, block := MainTls(p, space, frames).1, Rounded(space.tlsMemsz, space.tlsAlign);
      q.tlsBottom + block + USER_TLS_TCB_SIZE <= q.stackBottom <==> TlsFits(space, p.stackBottom)
  {
    RoundedOrHuge(space.tlsMemsz, space.tlsAlign);
    TlsPlaced(p.stackBottom, TlsBlock(space.tlsMemsz, space.tlsAlign));
  }

  lemma MainTlsPlaced(p: Process, image: Image, frames: bool)
    requires MainTls(p, SpaceFor(image), frames).0 && TlsBelow(SpaceFor(image), image.stackBottom)
    requires image.stackBottom == p.stackBottom && image.stackBottom % PAGE_SIZE == 0
    requires image.loadEnd <= image.stackBottom <= Top(p)
    ensures var r := MainTls(p, SpaceFor(image), frames);
      SpaceOk(r.2) && r.2.stackCursor == r.1.tlsBottom <= r.1.stackBottom == p.stackBottom && r.1.stackTop == p.stackTop
  {
    TlsPlaced(image.stackBottom, TlsBlock(image.tlsMemsz, SpaceFor(image).tlsAlign));
  }

  lemma UnmappedShrinks(s: System, i: nat, p: Process, v: nat, space: VmSpace)
    requires InTable(s) && CountsOk(s) && i < MAX_PROCESSES && s.procs[i].vm.None? && p.vm == Some(v)
    requires v !in s.spaces && space.refCount == 1
    ensures CountsOk(Fill(s, i, p, v, space)) && Shrinks(s, Release(Fill(s, i, p, v, space), i))
  {
    HoldKeeps(s, i, p, v, space);
    ReleaseKeeps(Fill(s, i, p, v, space), i);
    HoldersPut(s.procs, i, p, v);
    assert Holders(s.procs, v) == {};
  }

  lemma ConfigureKeepsRegions(s: System, i: nat, image: Image, key: Option<nat>, frames: bool)
    requires Safe(s) && RegionsOk(s) && Allowed(s, ConfigureImage(i, image, key, frames))
    requires Roomy(s, ConfigureImage(i, image, key, frames))
    ensures RegionsOk(Configure(s, i, image, key, frames))
  {
    if key.Some? {
      var p := s.procs[i].(vm := key);
      var mapped := MainTls(p, SpaceFor(image), frames);
      if mapped.0 {
        MainTlsPlaced(p, image, frames);
        PlacedBelow(s, i, mapped.1, key.value, mapped.2);
      } else {
        UnmappedShrinks(s, i, mapped.1, key.value, mapped.2);
        ShrinksKeeps(s, Release(Fill(s, i, mapped.1, key.value, mapped.2), i));
      }
    }
  }

  lemma StepShrinks(s: System, e: Event)
    requires Safe(s) && Allowed(s, e) && !e.CreateThread? && !e.ConfigureImage?
    ensures Shrinks(s, Step(s, e))
  {
    match e {
      case Yield(now) => ScheduleShrinks(s, now);
      case SleepUntil(wake, now) => SleepShrinks(s, wake, now);
      case ExitNow(now) => ExitShrinks(s, now);
      case TimerTick(now) => TickShrinks(s, now);
      case CreateProcess(entry, top, bottom, gotStack) => CreateShrinks(s, entry, top, bottom, gotStack);
      case ReapZombie(i) =>
      case DiscardProcess(i) => DiscardShrinks(s, i);
    }
  }

  lemma StepKeepsRegions(s: System, e: Event)
    requires Safe(s) && RegionsOk(s) && Allowed(s, e) && Roomy(s, e)
    ensures RegionsOk(Step(s, e))
  {
    match e {
      case CreateThread(entry, gotStack, stackFrames, tlsFrames) =>
        ThreadKeepsRegions(s, entry, gotStack, stackFrames, tlsFrames);
      case ConfigureImage(i, image, key, frames) => ConfigureKeepsRegions(s, i, image, key, frames);
      case _ => StepShrinks(s, e); ShrinksKeeps(s, Step(s, e));
    }
  }

  ghost predicate AllRoomy(s: System, es: seq<Event>)
    requires Safe(s) && Possible(s, es)
    decreases |es|
  {
    es == [] || (Roomy(s, es[0]) && (StepKeeps(s, es[0]); AllRoomy(Step(s, es[0]), es[1..])))
  }

  lemma {:induction false} RunKeepsRegions(s: System, es: seq<Event>)
    requires Safe(s) && RegionsOk(s) && Possible(s, es) && AllRoomy(s, es)
    ensures RegionsOk(Run(s, es))
    decreases |es|
  {
    if es != [] {
      StepKeeps(s, es[0]);
      StepKeepsRegions(s, es[0]);
      RunKeepsRegions(Step(s, es[0]), es[1..]);
    }
  }

  lemma InitialRegions()
    ensures RegionsOk(Initial())
  {
    assert forall i | 0 <= i < MAX_PROCESSES :: Initial().procs[i] == BLANK || i == IDLE;
  }

  /** In every state reachable from boot, thread regions of one space are disjoint and above the image. */
  lemma BootKeepsRegions(es: seq<Event>)
    requires Safe(Initial()) && Possible(Initial(), es) && AllRoomy(Initial(), es)
    ensures RegionsOk(Run(Initial(), es))
  {
    InitialRegions();
    RunKeepsRegions(Initial(), es);
  }
}
