/** The segmented stack simulates one contiguous stack, for every run of calls and returns. */
module SegmentSimulation {
  import opened SegmentMachines

  function WithLocals(st: Stack, locals: seq<Word>): (r: Stack)
    ensures r.locals == locals && r.page == st.page && Segments(r) == Segments(st)
    ensures st.Root? ==> r == Root(st.page, st.base, st.rootFp, st.data, locals)
    ensures st.Activation? ==> r == Activation(st.caller, st.callerSp, st.callerFp, st.ret, st.arguments,
                                               st.page, st.split, locals)
  {
    match st
    case Root(page, base, rootFp, data, _) => Root(page, base, rootFp, data, locals)
    case Activation(caller, callerSp, callerFp, ret, arguments, page, split, _) =>
      Activation(caller, callerSp, callerFp, ret, arguments, page, split, locals)
  }

  ghost predicate Unique(s: seq<nat>) {
    forall i, j :: 0 <= i < j < |s| ==> s[i] != s[j]
  }

  /** Every page carved is in exactly one list, and all live segments share the data of one thread. */
  ghost predicate Conserved(mem: seq<Word>, segments: seq<nat>, free: seq<nat>, start: nat, carved: nat, thread: Word) {
    && 0 < start && PAGE_WORDS * (start + carved) <= |mem|
    && Unique(segments) && Unique(free)
    && (forall p :: p in segments ==> p !in free)
    && (forall p :: p in segments || p in free <==> start <= p < start + carved)
    && (forall p :: p in segments ==> Read(mem, ThreadSlot(p)) == thread)
    && thread == if segments == [] then 0 else ThreadBase(segments[0])
  }

  ghost predicate Sound(m: Machine) {
    Conserved(m.mem, m.segments, m.free, m.start, m.carved, m.thread)
  }

  /** The activations on the stack of the machine. */
  ghost predicate Running(m: Machine, st: Stack) {
    Sound(m) && m.segments == Segments(st) && Laid(m.mem, st, m.sp, m.fp)
  }

  /** There is a free segment, or the pool has another page. */
  predicate CanAllocate(m: Machine) {
    m.free != [] || PAGE_WORDS * (m.start + m.carved + 1) <= |m.mem|
  }

  /**
   * What compiled code keeps to: it pushes only where the segment has room, touches only its own locals,
   * calls with its arguments pushed, in whole words, and pops as many arguments as it was given.  A split also needs a
   * segment to move to, and arguments that fit it.
   */
  predicate Allowed(m: Machine, st: Stack, op: Op) {
    match op
    case Push(w) => PAGE_WORDS * st.page <= m.sp - 1
    case Pop => st.locals != []
    case Store(k, w) => k < |st.locals|
    case Call(d, ret, body, split) =>
      && ArgumentWords(d) <= |st.locals| && ret != POP_TRAP
      && d < 0x1_0000_0000 && d / 0x10000 % 8 == 0
      && PAGE_WORDS * st.page <= m.sp - 2
      && (split ==> CanAllocate(m) && ArgumentWords(d) + 3 <= PAGE_WORDS - HEADER_WORDS)
    case Return(n, _) => st.Activation? && n == |st.arguments|
  }

  /** The activations after an operation. */
  function Next(m: Machine, st: Stack, op: Op): Stack
    requires Allowed(m, st, op)
  {
    match op
    case Push(w) => WithLocals(st, [w] + st.locals)
    case Pop => WithLocals(st, st.locals[1..])
    case Store(k, w) => WithLocals(st, st.locals[k := w])
    case Call(d, ret, body, split) =>
      var n := ArgumentWords(d);
      Activation(WithLocals(st, st.locals[n..]), m.sp + n, m.fp, ret, st.locals[..n],
                 if split then NextSegment(m) else st.page, split, [])
    case Return(n, _) => st.caller
  }

  // ---- Each operation keeps the layout ----

  lemma HoldsSuffix(mem: seq<Word>, a: int, ws: seq<Word>, n: nat)
    requires Holds(mem, a, ws) && n <= |ws|
    ensures Holds(mem, a + n, ws[n..]) && Holds(mem, a, ws[..n])
  {
    forall k | 0 <= k < |ws| - n ensures Read(mem, a + n + k) == ws[n..][k] {
      assert Read(mem, a + (n + k)) == ws[n + k];
    }
  }

  /** Words pushed and popped belong to the innermost activation only. */
  lemma Relocal(mem: seq<Word>, st: Stack, sp: int, fp: Word, locals: seq<Word>, sp': int)
    requires Laid(mem, st, sp, fp) && sp' + |locals| == sp + |st.locals| && PAGE_WORDS * st.page <= sp'
    requires Holds(mem, sp', locals)
    ensures Laid(mem, WithLocals(st, locals), sp', fp)
  {
  }

  /** A word written in the running segment below what is laid disturbs nothing. */
  lemma LaidWriteBelow(mem: seq<Word>, st: Stack, sp: int, fp: Word, a: int, w: Word)
    requires Laid(mem, st, sp, fp) && PAGE_WORDS * st.page <= a < sp
    ensures Laid(Write(mem, a, w), st, sp, fp) && Read(Write(mem, a, w), a) == w
  {
    InPage(mem, st, sp, fp);
    LaidFrame(mem, Write(mem, a, w), st, sp, fp);
  }

  lemma LaidPush(mem: seq<Word>, st: Stack, sp: int, fp: Word, w: Word)
    requires Laid(mem, st, sp, fp) && PAGE_WORDS * st.page <= sp - 1
    ensures Laid(Write(mem, sp - 1, w), WithLocals(st, [w] + st.locals), sp - 1, fp)
  {
    LaidWriteBelow(mem, st, sp, fp, sp - 1, w);
    var mem', locals := Write(mem, sp - 1, w), [w] + st.locals;
    forall k | 0 <= k < |locals| ensures Read(mem', sp - 1 + k) == locals[k] {
      if k > 0 {
        assert Read(mem, sp + (k - 1)) == st.locals[k - 1];
      }
    }
    Relocal(mem', st, sp, fp, locals, sp - 1);
  }

  lemma LaidPop(mem: seq<Word>, st: Stack, sp: int, fp: Word, n: nat)
    requires Laid(mem, st, sp, fp) && n <= |st.locals|
    ensures Laid(mem, WithLocals(st, st.locals[n..]), sp + n, fp)
  {
    HoldsSuffix(mem, sp, st.locals, n);
    Relocal(mem, st, sp, fp, st.locals[n..], sp + n);
  }

  lemma LaidStore(mem: seq<Word>, st: Stack, sp: int, fp: Word, k: nat, w: Word)
    requires Laid(mem, st, sp, fp) && k < |st.locals|
    ensures Laid(Write(mem, sp + k, w), WithLocals(st, st.locals[k := w]), sp, fp)
  {
    var bare, top := WithLocals(st, []), sp + |st.locals|;
    InPage(mem, st, sp, fp);
    Relocal(mem, st, sp, fp, [], top);
    LaidWriteBelow(mem, bare, top, fp, sp + k, w);
    Relocal(Write(mem, sp + k, w), bare, top, fp, st.locals[k := w], sp);
  }

  /** A direct activation on top of its caller. */
  lemma LaidActivation(mem: seq<Word>, caller: Stack, callerSp: int, callerFp: Word, ret: Word, arguments: seq<Word>)
    requires Laid(mem, caller, callerSp, callerFp) && arguments != [] && ret != POP_TRAP
    requires var fp := callerSp - |arguments| - 2;
             && PAGE_WORDS * caller.page <= fp && Holds(mem, fp + 2, arguments)
             && Read(mem, fp) == callerFp && Read(mem, fp + 1) == ret
    ensures var fp := callerSp - |arguments| - 2;
            Laid(mem, Activation(caller, callerSp, callerFp, ret, arguments, caller.page, false, []), fp, fp)
  {
    InPage(mem, caller, callerSp, callerFp);
  }

  /** A direct call leaves its return address and frame pointer below its arguments. */
  lemma LaidDirectCall(mem: seq<Word>, st: Stack, sp: int, fp: Word, n: nat, ret: Word)
    requires Laid(mem, st, sp, fp) && PAGE_WORDS * st.page <= sp - 2 && 0 < n <= |st.locals| && ret != POP_TRAP
    ensures Laid(Write(Write(mem, sp - 1, ret), sp - 2, fp),
                 Activation(WithLocals(st, st.locals[n..]), sp + n, fp, ret, st.locals[..n], st.page, false, []),
                 sp - 2, sp - 2)
  {
    hide Laid, Write, Read;
    var caller := WithLocals(st, st.locals[n..]);
    LocalsHeld(mem, st, sp, fp);
    CallerBelowCall(mem, st, sp, fp, n, ret, fp);
    ArgumentsAboveCall(mem, sp, st.locals, n, ret, fp);
    LaidActivation(Write(Write(mem, sp - 1, ret), sp - 2, fp), caller, sp + n, fp, ret, st.locals[..n]);
  }

  lemma LocalsHeld(mem: seq<Word>, st: Stack, sp: int, fp: Word)
    requires Laid(mem, st, sp, fp)
    ensures Holds(mem, sp, st.locals)
  {
  }

  lemma CallerBelowCall(mem: seq<Word>, st: Stack, sp: int, fp: Word, n: nat, ret: Word, w: Word)
    requires Laid(mem, st, sp, fp) && PAGE_WORDS * st.page <= sp - 2 && n <= |st.locals|
    ensures Laid(Write(Write(mem, sp - 1, ret), sp - 2, w), WithLocals(st, st.locals[n..]), sp + n, fp)
    ensures sp <= |mem|
  {
    hide Laid, Holds, Write, WithLocals, Segments;
    var caller := WithLocals(st, st.locals[n..]);
    InPage(mem, st, sp, fp);
    LaidPop(mem, st, sp, fp, n);
    LaidWriteBelow(mem, caller, sp + n, fp, sp - 1, ret);
    LaidWriteBelow(Write(mem, sp - 1, ret), caller, sp + n, fp, sp - 2, w);
  }

  lemma ArgumentsAboveCall(mem: seq<Word>, sp: int, locals: seq<Word>, n: nat, ret: Word, w: Word)
    requires 2 <= sp <= |mem| && n <= |locals| && Holds(mem, sp, locals)
    ensures var mem' := Write(Write(mem, sp - 1, ret), sp - 2, w);
            Read(mem', sp - 2) == w && Read(mem', sp - 1) == ret && Holds(mem', sp, locals[..n])
  {
  }

  lemma LaidDirectReturn(m: Machine, st: Stack, value: Word)
    requires Laid(m.mem, st, m.sp, m.fp) && st.Activation? && !st.split
    ensures var left := Leave(m, |st.arguments|, value);
            left.pc == st.ret && left.sp == st.callerSp && left.fp == st.callerFp
            && Laid(m.mem, st.caller, left.sp, left.fp)
  {
  }

  // ---- Splitting ----

  /** Memory r is memory mem with a fresh segment header on a page. */
  ghost predicate IsCreated(mem: seq<Word>, r: seq<Word>, page: nat, thread: Word) {
    && |r| == |mem|
    && Read(r, SpSlot(page)) == Top(page) && Read(r, FpSlot(page)) == 0 && Read(r, ThreadSlot(page)) == thread
    && forall a :: !On(page, a) ==> Read(r, a) == Read(mem, a)
  }

  lemma CreatedSegment(m: Machine)
    requires Top(NextSegment(m)) + HEADER_WORDS <= |m.mem|
    ensures IsCreated(m.mem, CreateNewSegment(m).mem, NextSegment(m), m.thread)
  {
  }

  /** What it takes to move n arguments and two return addresses from curSp to the top of a new segment. */
  predicate CanMove(mem: seq<Word>, page: nat, curSp: int, n: nat) {
    && Top(page) + HEADER_WORDS <= |mem| && n + 3 <= PAGE_WORDS - HEADER_WORDS
    && Read(mem, SpSlot(page)) == Top(page)
    && curSp >= 0 && (curSp + n + 2 <= PAGE_WORDS * page || curSp >= PAGE_WORDS * page + PAGE_WORDS)
  }

  /** Memory r is memory mem with n arguments and the callee's address moved, and the trap planted. */
  ghost predicate IsMoved(mem: seq<Word>, r: seq<Word>, page: nat, curSp: int, n: nat) {
    var sp := Top(page) - n - 3;
    && |r| == |mem|
    && Read(r, sp) == Read(mem, FpSlot(page))
    && Read(r, sp + 1) == Read(mem, curSp)
    && Read(r, sp + 2) == POP_TRAP
    && (forall a :: sp + 3 <= a < Top(page) ==> Read(r, a) == Read(mem, a - sp - 1 + curSp))
    && Read(r, ThreadSlot(page)) == Read(mem, ThreadSlot(page))
    && forall a :: !On(page, a) ==> Read(r, a) == Read(mem, a)
  }

  lemma CopiedArguments(mem: seq<Word>, page: nat, curSp: int, n: nat)
    requires CanMove(mem, page, curSp, n)
    ensures var newSp := Top(page) - n - 2;
            var r := Copy(mem, newSp, curSp, n + 2);
            && Read(r, newSp) == Read(mem, curSp)
            && (forall a :: newSp <= a < Top(page) ==> Read(r, a) == Read(mem, a - newSp + curSp))
            && (forall a :: Top(page) <= a ==> Read(r, a) == Read(mem, a))
            && (forall a :: !On(page, a) ==> Read(r, a) == Read(mem, a))
  {
  }

  lemma MovedArguments(mem: seq<Word>, page: nat, curSp: int, n: nat)
    requires CanMove(mem, page, curSp, n)
    ensures IsMoved(mem, MoveArguments(mem, page, curSp, n + 2), page, curSp, n)
  {
    hide Copy;
    CopiedArguments(mem, page, curSp, n);
    PlantedTrap(mem, Copy(mem, Top(page) - n - 2, curSp, n + 2), page, curSp, n);
  }

  lemma PlantedTrap(mem: seq<Word>, copied: seq<Word>, page: nat, curSp: int, n: nat)
    requires CanMove(mem, page, curSp, n) && |copied| == |mem|
    requires forall a :: Top(page) - n - 2 <= a < Top(page) ==>
               Read(copied, a) == Read(mem, a - Top(page) + n + 2 + curSp)
    requires forall a :: Top(page) <= a ==> Read(copied, a) == Read(mem, a)
    requires forall a :: !On(page, a) ==> Read(copied, a) == Read(mem, a)
    ensures var newSp := Top(page) - n - 2;
            IsMoved(mem, Write(Write(Write(copied, SpSlot(page), newSp - 1), newSp + 1, POP_TRAP),
                               newSp - 1, Read(copied, FpSlot(page))), page, curSp, n)
  {
    var newSp := Top(page) - n - 2;
    assert Read(copied, newSp) == Read(mem, curSp);
    var r := Write(Write(Write(copied, SpSlot(page), newSp - 1), newSp + 1, POP_TRAP),
                   newSp - 1, Read(copied, FpSlot(page)));
    forall a | newSp + 2 <= a < Top(page) ensures Read(r, a) == Read(mem, a - newSp + curSp) {
      assert Read(copied, a) == Read(mem, a - newSp + curSp);
    }
  }

  /** Memory r is memory mem with the sender's pointers left at oldSp. */
  ghost predicate IsLeft(mem: seq<Word>, r: seq<Word>, cur: nat, oldSp: int, sender: Word) {
    && |r| == |mem|
    && Read(r, SpSlot(cur)) == oldSp
    && Read(r, oldSp) == Read(mem, FpSlot(cur)) && Read(r, oldSp + 1) == sender
    && Read(r, ThreadSlot(cur)) == Read(mem, ThreadSlot(cur))
    && (forall a :: !On(cur, a) ==> Read(r, a) == Read(mem, a))
    && (forall a :: oldSp + 2 <= a < Top(cur) ==> Read(r, a) == Read(mem, a))
  }

  lemma LeftSender(mem: seq<Word>, cur: nat, oldSp: int, sender: Word)
    requires Top(cur) + HEADER_WORDS <= |mem| && PAGE_WORDS * cur <= oldSp && oldSp + 2 <= Top(cur)
    ensures IsLeft(mem, LeaveSender(mem, cur, oldSp, sender), cur, oldSp, sender)
  {
  }

  /**
   * The memory r after a split from memory mem: the callee's arguments stand at the top of the new page above
   * the trap, the sender's pointers in the old one, and nothing else that is owned has changed.
   */
  ghost predicate IsSplit(mem: seq<Word>, r: seq<Word>, cur: nat, page: nat, curSp: int, n: nat, thread: Word) {
    var sp := Top(page) - n - 3;
    && |r| == |mem|
    && Read(r, sp) == 0 && Read(r, sp + 1) == Read(mem, curSp) && Read(r, sp + 2) == POP_TRAP
    && (forall a :: sp + 3 <= a < Top(page) ==> Read(r, a) == Read(mem, a - sp - 1 + curSp))
    && Read(r, SpSlot(cur)) == curSp + n
    && Read(r, curSp + n) == Read(mem, FpSlot(cur)) && Read(r, curSp + n + 1) == Read(mem, curSp + 1)
    && (forall a :: curSp + n + 2 <= a < Top(cur) ==> Read(r, a) == Read(mem, a))
    && (forall a :: !On(cur, a) && !On(page, a) ==> Read(r, a) == Read(mem, a))
    && Read(r, ThreadSlot(page)) == thread && Read(r, ThreadSlot(cur)) == Read(mem, ThreadSlot(cur))
  }

  lemma SplitInSteps(mem: seq<Word>, a: seq<Word>, b: seq<Word>, c: seq<Word>,
                     cur: nat, page: nat, curSp: int, n: nat, thread: Word)
    requires cur != page && PAGE_WORDS * cur <= curSp && curSp + n + 2 <= Top(cur)
    requires n + 3 <= PAGE_WORDS - HEADER_WORDS
    requires IsCreated(mem, a, page, thread) && IsMoved(a, b, page, curSp, n)
    requires IsLeft(b, c, cur, curSp + n, Read(a, curSp + 1))
    ensures IsSplit(mem, c, cur, page, curSp, n, thread)
  {
    forall x | On(cur, x) ensures !On(page, x) && Read(b, x) == Read(mem, x) {
    }
  }

  lemma SplitMemoryIsSplit(mem: seq<Word>, a: seq<Word>, cur: nat, page: nat, curSp: int, n: nat, thread: Word)
    requires cur != page && PAGE_WORDS * cur <= curSp && curSp + n + 2 <= Top(cur)
    requires Top(page) + HEADER_WORDS <= |mem| && Top(cur) + HEADER_WORDS <= |mem| && n + 3 <= PAGE_WORDS - HEADER_WORDS
    requires IsCreated(mem, a, page, thread) && curSp == Read(mem, SpSlot(cur))
    ensures IsSplit(mem, SplitMemory(a, cur, page, n + 2), cur, page, curSp, n, thread)
  {
    hide MoveArguments, LeaveSender;
    assert On(cur, SpSlot(cur)) && !On(page, SpSlot(cur));
    var b := MoveArguments(a, page, curSp, n + 2);
    MovedArguments(a, page, curSp, n);
    LeftSender(b, cur, curSp + n, Read(a, curSp + 1));
    SplitInSteps(mem, a, b, LeaveSender(b, cur, curSp + n, Read(a, curSp + 1)), cur, page, curSp, n, thread);
  }

  lemma NewSegmentTop(m: Machine)
    requires Top(NextSegment(m)) + HEADER_WORDS <= |m.mem|
    ensures Read(CreateNewSegment(m).mem, SpSlot(NextSegment(m))) == Top(NextSegment(m))
  {
  }

  lemma NewSegmentState(m: Machine, cur: nat, d: nat, curSp: int)
    requires var page, n := NextSegment(m), ArgumentWords(d);
             && cur != page && Top(page) + HEADER_WORDS <= |m.mem| && Top(cur) + HEADER_WORDS <= |m.mem|
             && n + 3 <= PAGE_WORDS - HEADER_WORDS && curSp == Read(m.mem, SpSlot(cur))
             && PAGE_WORDS * cur <= curSp && curSp + n + 2 <= Top(cur)
    ensures var page, n, r := NextSegment(m), ArgumentWords(d), NewStackSegment(m, cur, d);
            && IsSplit(m.mem, r.mem, cur, page, curSp, n, m.thread)
            && r.sp == Top(page) - n - 1 && r.fp == 0 && r.pc == Read(m.mem, curSp)
  {
    hide IsCreated, SplitMemory;
    CreatedSegment(m);
    NewSegmentTop(m);
    SplitMemoryIsSplit(m.mem, CreateNewSegment(m).mem, cur, NextSegment(m), curSp, ArgumentWords(d), m.thread);
  }

  /** A callee moved to the top of its own segment, above what its sender left in the old one. */
  lemma LaidMovedActivation(mem: seq<Word>, caller: Stack, callerSp: int, callerFp: Word, ret: Word,
                            arguments: seq<Word>, page: nat)
    requires Laid(mem, caller, callerSp, callerFp) && arguments != [] && ret != POP_TRAP
    requires |arguments| + 2 <= PAGE_WORDS - HEADER_WORDS && Top(page) + HEADER_WORDS <= |mem|
    requires page !in Segments(caller) && PAGE_WORDS * caller.page <= callerSp - 2
    requires Read(mem, SpSlot(caller.page)) == callerSp - 2
    requires Read(mem, callerSp - 2) == callerFp && Read(mem, callerSp - 1) == ret
    requires var fp := Top(page) - |arguments| - 2;
             Read(mem, fp + 1) == POP_TRAP && Holds(mem, fp + 2, arguments)
    ensures var fp := Top(page) - |arguments| - 2;
            Laid(mem, Activation(caller, callerSp, callerFp, ret, arguments, page, true, []), fp, fp)
  {
  }

  lemma CallerAfterSplit(mem: seq<Word>, r: seq<Word>, caller: Stack, page: nat,
                         curSp: int, fp: Word, n: nat, thread: Word)
    requires n + 3 <= PAGE_WORDS - HEADER_WORDS && PAGE_WORDS * caller.page <= curSp
    requires IsSplit(mem, r, caller.page, page, curSp, n, thread) && page !in Segments(caller)
    requires Laid(mem, caller, curSp + n + 2, fp)
    ensures Laid(Write(r, Top(page) - n - 2, 0), caller, curSp + n + 2, fp)
    ensures var e := Write(r, Top(page) - n - 2, 0);
            && Read(e, SpSlot(caller.page)) == curSp + n
            && Read(e, curSp + n) == Read(mem, FpSlot(caller.page)) && Read(e, curSp + n + 1) == Read(mem, curSp + 1)
  {
    hide Laid, IsSplit, Agree, Read, Write;
    RunningIsLast(mem, caller, curSp + n + 2, fp);
    InPage(mem, caller, curSp + n + 2, fp);
    SplitSender(mem, r, caller.page, page, curSp, n, thread);
    SplitAgrees(mem, r, caller, page, curSp, n, thread);
    LaidFrame(mem, Write(r, Top(page) - n - 2, 0), caller, curSp + n + 2, fp);
  }

  /** After a split and the callee's prologue, the new segment holds the callee's activation. */
  lemma LaidSplit(mem: seq<Word>, r: seq<Word>, caller: Stack, page: nat, curSp: int, fp: Word, ret: Word,
                  arguments: seq<Word>, thread: Word)
    requires arguments != [] && |arguments| + 3 <= PAGE_WORDS - HEADER_WORDS && ret != POP_TRAP
    requires Top(page) + HEADER_WORDS <= |mem| && PAGE_WORDS * caller.page <= curSp && page !in Segments(caller)
    requires IsSplit(mem, r, caller.page, page, curSp, |arguments|, thread)
    requires Laid(mem, caller, curSp + |arguments| + 2, fp) && Holds(mem, curSp + 2, arguments)
    requires Read(mem, FpSlot(caller.page)) == fp && Read(mem, curSp + 1) == ret
    ensures var frame := Top(page) - |arguments| - 2;
            Laid(Write(r, frame, 0),
                 Activation(caller, curSp + |arguments| + 2, fp, ret, arguments, page, true, []), frame, frame)
  {
    hide Laid, IsSplit, Write, Read, Holds;
    var n := |arguments|;
    SplitKeepsLength(mem, r, caller.page, page, curSp, n, thread);
    CallerAfterSplit(mem, r, caller, page, curSp, fp, n, thread);
    SplitHolds(mem, r, caller.page, page, curSp, arguments, thread);
    LaidMovedActivation(Write(r, Top(page) - n - 2, 0), caller, curSp + n + 2, fp, ret, arguments, page);
  }

  lemma SplitKeepsLength(mem: seq<Word>, r: seq<Word>, cur: nat, page: nat, curSp: int, n: nat, thread: Word)
    requires IsSplit(mem, r, cur, page, curSp, n, thread)
    ensures |r| == |mem|
  {
  }

  lemma SplitAgrees(mem: seq<Word>, r: seq<Word>, caller: Stack, page: nat, curSp: int, n: nat, thread: Word)
    requires n + 3 <= PAGE_WORDS - HEADER_WORDS && PAGE_WORDS * caller.page <= curSp
    requires IsSplit(mem, r, caller.page, page, curSp, n, thread)
    requires page !in Segments(caller) && caller.page in Segments(caller)
    ensures Agree(mem, Write(r, Top(page) - n - 2, 0), caller, curSp + n + 2)
  {
    var e := Write(r, Top(page) - n - 2, 0);
    assert forall x :: !On(page, x) ==> Read(e, x) == Read(r, x);
    hide Write, Read;
    forall x | curSp <= x < Top(caller.page) ensures !On(page, x) {
      assert On(caller.page, x);
    }
    forall p, x | p in Segments(caller) && p != caller.page && On(p, x) ensures Read(e, x) == Read(mem, x) {
      assert !On(page, x) && !On(caller.page, x);
      assert Read(r, x) == Read(mem, x);
    }
  }

  lemma SplitSender(mem: seq<Word>, r: seq<Word>, cur: nat, page: nat, curSp: int, n: nat, thread: Word)
    requires cur != page && n + 3 <= PAGE_WORDS - HEADER_WORDS
    requires PAGE_WORDS * cur <= curSp && curSp + n + 2 <= Top(cur)
    requires IsSplit(mem, r, cur, page, curSp, n, thread)
    ensures var e := Write(r, Top(page) - n - 2, 0);
            && Read(e, SpSlot(cur)) == curSp + n
            && Read(e, curSp + n) == Read(mem, FpSlot(cur)) && Read(e, curSp + n + 1) == Read(mem, curSp + 1)
  {
  }

  lemma SplitHolds(mem: seq<Word>, r: seq<Word>, cur: nat, page: nat, curSp: int, arguments: seq<Word>, thread: Word)
    requires |arguments| + 3 <= PAGE_WORDS - HEADER_WORDS && Top(page) + HEADER_WORDS <= |mem|
    requires IsSplit(mem, r, cur, page, curSp, |arguments|, thread) && Holds(mem, curSp + 2, arguments)
    ensures var frame := Top(page) - |arguments| - 2;
            var e := Write(r, frame, 0);
            Read(e, frame) == 0 && Read(e, frame + 1) == POP_TRAP && Holds(e, frame + 2, arguments)
  {
    var frame := Top(page) - |arguments| - 2;
    var e := Write(r, frame, 0);
    forall k | 0 <= k < |arguments| ensures Read(e, frame + 2 + k) == arguments[k] {
      assert Read(r, frame + 2 + k) == Read(mem, curSp + 2 + k);
    }
  }

  /** Saving the registers touches only the header of the running segment. */
  lemma LaidSaveRegisters(mem: seq<Word>, st: Stack, sp: int, fp: Word, a: Word, b: Word)
    requires Laid(mem, st, sp, fp)
    ensures Laid(Write(Write(mem, SpSlot(st.page), a), FpSlot(st.page), b), st, sp, fp)
  {
    LaidFrame(mem, Write(Write(mem, SpSlot(st.page), a), FpSlot(st.page), b), st, sp, fp);
  }

  /** The memory when the callee of a split call has reached the trap and its registers are saved. */
  function TrapMemory(mem: seq<Word>, page: nat, sp: int, fp: Word, ret: Word, body: Word): seq<Word> {
    Write(Write(Write(Write(mem, sp - 1, ret), sp - 2, body), SpSlot(page), sp - 2), FpSlot(page), fp)
  }

  lemma AtTheTrap(mem: seq<Word>, st: Stack, sp: int, fp: Word, n: nat, ret: Word, body: Word)
    requires Laid(mem, st, sp, fp) && PAGE_WORDS * st.page <= sp - 2 && n <= |st.locals|
    ensures var memT := TrapMemory(mem, st.page, sp, fp, ret, body);
            && |memT| == |mem| && Laid(memT, WithLocals(st, st.locals[n..]), sp + n, fp)
            && Holds(memT, sp, st.locals[..n])
            && Read(memT, sp - 2) == body && Read(memT, sp - 1) == ret
            && Read(memT, SpSlot(st.page)) == sp - 2 && Read(memT, FpSlot(st.page)) == fp
            && sp + n <= Top(st.page)
  {
    hide Laid, Read, Write, Holds;
    InPage(mem, st, sp, fp);
    LocalsHeld(mem, st, sp, fp);
    CallerBelowCall(mem, st, sp, fp, n, ret, body);
    ArgumentsAboveCall(mem, sp, st.locals, n, ret, body);
    var pushed := Write(Write(mem, sp - 1, ret), sp - 2, body);
    LaidSaveRegisters(pushed, WithLocals(st, st.locals[n..]), sp + n, fp, sp - 2, fp);
    SavedRegisters(pushed, st.page, sp - 2, fp, st.locals[..n]);
  }

  /** The saved registers are in the header, and all words below it are as they were. */
  lemma SavedRegisters(mem: seq<Word>, page: nat, sp: int, fp: Word, arguments: seq<Word>)
    requires 0 <= sp && sp + 2 + |arguments| <= Top(page) && Top(page) + HEADER_WORDS <= |mem|
    requires Holds(mem, sp + 2, arguments)
    ensures var r := Write(Write(mem, SpSlot(page), sp), FpSlot(page), fp);
            && Read(r, SpSlot(page)) == sp && Read(r, FpSlot(page)) == fp
            && Read(r, sp) == Read(mem, sp) && Read(r, sp + 1) == Read(mem, sp + 1) && Holds(r, sp + 2, arguments)
  {
  }

  /** A split call is the work of the trap, on the machine whose registers the trap has saved. */
  lemma SplitCallAtTheTrap(m: Machine, page: nat, d: nat, ret: Word, body: Word)
    requires PAGE_WORDS * page <= m.sp - 2 && m.sp <= Top(page)
    ensures m.sp >= 2
    ensures SplitCall(m, d, ret, body)
         == Enter(NewStackSegment(m.(mem := TrapMemory(m.mem, page, m.sp, m.fp, ret, body), sp := m.sp - 2), page, d))
  {
    hide NewStackSegment, Write;
    assert PageOf(m.sp - 2) == page;
    assert SaveRegisters(PushWord(PushWord(m, ret), body))
        == m.(mem := TrapMemory(m.mem, page, m.sp, m.fp, ret, body), sp := m.sp - 2);
  }

  lemma LaidSplitCall(m: Machine, st: Stack, d: nat, ret: Word, body: Word)
    requires Laid(m.mem, st, m.sp, m.fp) && Allowed(m, st, Call(d, ret, body, true))
    requires NextSegment(m) !in Segments(st) && Top(NextSegment(m)) + HEADER_WORDS <= |m.mem|
    ensures m.sp >= 2
    ensures var r := SplitCall(m, d, ret, body);
            Laid(r.mem, Next(m, st, Call(d, ret, body, true)), r.sp, r.fp) && r.pc == body
  {
    hide Laid, TrapMemory, NewStackSegment, SplitCall, Holds, Read, Write, IsSplit;
    var n, page, cur := ArgumentWords(d), NextSegment(m), st.page;
    var mT := m.(mem := TrapMemory(m.mem, cur, m.sp, m.fp, ret, body), sp := m.sp - 2);
    InPage(m.mem, st, m.sp, m.fp);
    RunningIsLast(m.mem, st, m.sp, m.fp);
    AtTheTrap(m.mem, st, m.sp, m.fp, n, ret, body);
    SplitCallAtTheTrap(m, cur, d, ret, body);
    NewSegmentState(mT, cur, d, m.sp - 2);
    var r := NewStackSegment(mT, cur, d);
    LaidSplit(mT.mem, r.mem, WithLocals(st, st.locals[n..]), page, m.sp - 2, m.fp, ret, st.locals[..n], m.thread);
  }
}
