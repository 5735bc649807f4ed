/** Whole runs on the segmented stack, against one contiguous stack. */
module SegmentRuns {
  import opened SegmentMachines
  import opened SegmentSimulation
  import Bits

  // ---- No segment is lost, and the thread data stays reachable ----

  /** Memories that show the same thread in every live segment conserve alike. */
  lemma ConservedByThreads(mem: seq<Word>, mem': seq<Word>, segments: seq<nat>, free: seq<nat>,
                           start: nat, carved: nat, thread: Word)
    requires Conserved(mem, segments, free, start, carved, thread) && |mem'| == |mem|
    requires forall p :: p in segments ==> Read(mem', ThreadSlot(p)) == Read(mem, ThreadSlot(p))
    ensures Conserved(mem', segments, free, start, carved, thread)
  {
  }

  lemma ConservedWrite(m: Machine, page: nat, a: int, w: Word)
    requires Sound(m) && (PAGE_WORDS * page <= a < Top(page) || a == SpSlot(page) || a == FpSlot(page))
    ensures Sound(m.(mem := Write(m.mem, a, w)))
  {
    forall p | p in m.segments ensures Read(Write(m.mem, a, w), ThreadSlot(p)) == Read(m.mem, ThreadSlot(p)) {
      assert ThreadSlot(p) != a;
    }
    ConservedByThreads(m.mem, Write(m.mem, a, w), m.segments, m.free, m.start, m.carved, m.thread);
  }

  /** The next segment is one the thread does not have yet, and it is within memory. */
  lemma NextSegmentIsFresh(m: Machine)
    requires Sound(m) && CanAllocate(m)
    ensures NextSegment(m) !in m.segments && Top(NextSegment(m)) + HEADER_WORDS <= |m.mem|
  {
    if m.free != [] {
      assert m.free[0] in m.free;
    }
  }

  /** Taking the next segment moves it from the free list, or from the pool, to the thread. */
  lemma ConservedCreate(m: Machine, mem: seq<Word>)
    requires Sound(m) && CanAllocate(m) && m.segments != [] && |mem| == |m.mem|
    requires forall p :: p in m.segments ==> Read(mem, ThreadSlot(p)) == m.thread
    requires Read(mem, ThreadSlot(NextSegment(m))) == m.thread
    ensures var c := CreateNewSegment(m); Sound(c.(mem := mem))
  {
    NextSegmentIsFresh(m);
    var page, free := NextSegment(m), if m.free != [] then m.free[1..] else [];
    forall p ensures p in m.segments + [page] <==> p in m.segments || p == page {
    }
    forall p ensures p in m.free <==> p in free || (p == page && m.free != []) {
    }
    assert m.free != [] ==> forall i :: 0 < i < |m.free| ==> m.free[i] != m.free[0];
  }

  /** Popping the last segment hands it to the free list. */
  lemma ConservedPop(m: Machine)
    requires Sound(m) && m.segments != []
    ensures Sound(PopSegment(m))
  {
    var n := |m.segments| - 1;
    var page, rest := m.segments[n], m.segments[..n];
    forall p ensures p in m.segments <==> p in rest || p == page {
    }
    assert page in m.segments && page !in rest;
    forall p ensures p in m.free + [page] <==> p in m.free || p == page {
    }
  }

  /** A split keeps the thread data word of every live segment. */
  lemma ThreadsAfterSplit(mem: seq<Word>, r: seq<Word>, segments: seq<nat>, cur: nat, page: nat,
                          curSp: int, n: nat, thread: Word)
    requires IsSplit(mem, r, cur, page, curSp, n, thread) && cur != page && page !in segments
    ensures forall p :: p in segments ==> Read(r, ThreadSlot(p)) == Read(mem, ThreadSlot(p))
    ensures Read(r, ThreadSlot(page)) == thread
  {
    hide Read;
    forall p | p in segments ensures Read(r, ThreadSlot(p)) == Read(mem, ThreadSlot(p)) {
      if p != cur {
        assert !On(cur, ThreadSlot(p)) && !On(page, ThreadSlot(p));
      }
    }
  }

  lemma TrapMemoryKeepsThreads(m: Machine, page: nat, ret: Word, body: Word)
    requires PAGE_WORDS * page <= m.sp - 2 && m.sp <= Top(page)
    ensures forall p ::
              Read(TrapMemory(m.mem, page, m.sp, m.fp, ret, body), ThreadSlot(p)) == Read(m.mem, ThreadSlot(p))
  {
  }

  /** Moving a callee to a new segment loses no segment. */
  lemma SoundNewSegment(m: Machine, cur: nat, d: nat, curSp: int)
    requires Sound(m) && CanAllocate(m) && cur in m.segments
    requires ArgumentWords(d) + 3 <= PAGE_WORDS - HEADER_WORDS && curSp == Read(m.mem, SpSlot(cur))
    requires PAGE_WORDS * cur <= curSp && curSp + ArgumentWords(d) + 2 <= Top(cur)
    ensures Sound(NewStackSegment(m, cur, d))
  {
    LivePages(m, cur);
    NextSegmentIsFresh(m);
    hide Conserved, IsSplit, NewStackSegment, Read;
    var n, page := ArgumentWords(d), NextSegment(m);
    NewSegmentState(m, cur, d, curSp);
    var r := NewStackSegment(m, cur, d);
    ThreadsAfterSplit(m.mem, r.mem, m.segments, cur, page, curSp, n, m.thread);
    SplitRegisters(m, cur, d);
    SplitLength(m, cur, d);
    ConservedCreate(m, r.mem);
  }

  lemma LivePages(m: Machine, cur: nat)
    requires Sound(m) && cur in m.segments
    ensures Top(cur) + HEADER_WORDS <= |m.mem|
    ensures forall p :: p in m.segments ==> Read(m.mem, ThreadSlot(p)) == m.thread
  {
  }

  lemma SoundAtTheTrap(m: Machine, page: nat, ret: Word, body: Word)
    requires Sound(m) && PAGE_WORDS * page <= m.sp - 2 && m.sp <= Top(page)
    ensures Sound(m.(mem := TrapMemory(m.mem, page, m.sp, m.fp, ret, body)))
  {
    hide Read;
    TrapMemoryKeepsThreads(m, page, ret, body);
    var memT := TrapMemory(m.mem, page, m.sp, m.fp, ret, body);
    ConservedByThreads(m.mem, memT, m.segments, m.free, m.start, m.carved, m.thread);
  }

  lemma SoundSplitCall(m: Machine, st: Stack, d: nat, ret: Word, body: Word)
    requires Running(m, st) && Allowed(m, st, Call(d, ret, body, true))
    ensures m.sp >= 2 && Sound(SplitCall(m, d, ret, body))
    ensures SplitCall(m, d, ret, body).segments == m.segments + [NextSegment(m)]
  {
    hide Conserved, Laid, IsSplit, TrapMemory, NewStackSegment, SplitCall, Read, Write, Holds;
    var n, page, cur := ArgumentWords(d), NextSegment(m), st.page;
    var mT := m.(mem := TrapMemory(m.mem, cur, m.sp, m.fp, ret, body), sp := m.sp - 2);
    RunningIsLast(m.mem, st, m.sp, m.fp);
    InPage(m.mem, st, m.sp, m.fp);
    AtTheTrap(m.mem, st, m.sp, m.fp, n, ret, body);
    SplitCallAtTheTrap(m, cur, d, ret, body);
    SoundAtTheTrap(m, cur, ret, body);
    SoundNewSegment(mT, cur, d, m.sp - 2);
    SplitRegisters(mT, cur, d);
    NextSegmentIsFresh(m);
    NewSegmentState(mT, cur, d, m.sp - 2);
    var r := NewStackSegment(mT, cur, d);
    ConservedWrite(r, page, r.sp - 1, r.fp);
  }

  lemma SplitRegisters(m: Machine, cur: nat, d: nat)
    ensures var r, c := NewStackSegment(m, cur, d), CreateNewSegment(m);
            && r == c.(mem := r.mem, sp := r.sp, fp := r.fp, pc := r.pc, result := r.result)
            && r.segments == m.segments + [NextSegment(m)]
  {
  }

  lemma SplitLength(m: Machine, cur: nat, d: nat)
    ensures |NewStackSegment(m, cur, d).mem| == |m.mem|
  {
  }

  // ---- The return through the trap ----

  lemma SplitReturnAtTheTrap(m: Machine, st: Stack, value: Word)
    requires Laid(m.mem, st, m.sp, m.fp) && st.Activation? && st.split && m.segments == Segments(st)
    ensures var left := Leave(m, |st.arguments|, value);
            && left.pc == POP_TRAP && left.sp == Top(st.page) && |left.segments| >= 2
            && left.segments[|left.segments| - 1] == st.page && left.segments[|left.segments| - 2] == st.caller.page
  {
    RunningIsLast(m.mem, st.caller, st.callerSp, st.callerFp);
  }

  /** The registers at the trap and after it. */
  lemma PopTrapRegisters(left: Machine, page: nat, previous: nat)
    requires |left.segments| >= 2 && left.segments[|left.segments| - 2] == previous && left.sp == Top(page)
    ensures var mem := Write(Write(left.mem, SpSlot(page), left.sp), FpSlot(page), left.fp);
            (PopSegmentTrap(left)
             == ReturnToSender(PopSegment(left.(mem := mem)), Read(mem, SpSlot(previous)), left.result))
  {
    assert PageOf(left.sp) == page;
  }

  /** What the sender needs in its own segment survives in any memory that only differs on the popped page. */
  lemma SenderSurvives(mem: seq<Word>, mem': seq<Word>, st: Stack, sp: int, fp: Word)
    requires Laid(mem, st, sp, fp) && st.Activation? && st.split && |mem| == |mem'|
    requires forall a :: !On(st.page, a) ==> Read(mem', a) == Read(mem, a)
    ensures Laid(mem', st.caller, st.callerSp, st.callerFp)
    ensures Read(mem', SpSlot(st.caller.page)) == st.callerSp - 2
    ensures Read(mem', st.callerSp - 2) == st.callerFp && Read(mem', st.callerSp - 1) == st.ret
  {
    hide Read, Laid;
    var caller := st.caller;
    SplitSenderIsLaid(mem, st, sp, fp);
    InPage(mem, caller, st.callerSp, st.callerFp);
    RunningIsLast(mem, caller, st.callerSp, st.callerFp);
    OtherPagesAgree(mem, mem', caller, st.callerSp, st.page);
    LaidFrame(mem, mem', caller, st.callerSp, st.callerFp);
    assert !On(st.page, SpSlot(caller.page)) && !On(st.page, st.callerSp - 2) && !On(st.page, st.callerSp - 1);
  }

  lemma SplitSenderIsLaid(mem: seq<Word>, st: Stack, sp: int, fp: Word)
    requires Laid(mem, st, sp, fp) && st.Activation? && st.split
    ensures Laid(mem, st.caller, st.callerSp, st.callerFp) && st.page !in Segments(st.caller)
    ensures PAGE_WORDS * st.caller.page <= st.callerSp - 2 && Read(mem, SpSlot(st.caller.page)) == st.callerSp - 2
    ensures Read(mem, st.callerSp - 2) == st.callerFp && Read(mem, st.callerSp - 1) == st.ret
  {
  }

  lemma LaidSplitReturn(m: Machine, st: Stack, value: Word)
    requires Laid(m.mem, st, m.sp, m.fp) && st.Activation? && st.split && m.segments == Segments(st)
    ensures |m.segments| >= 2
    ensures var r := PopSegmentTrap(Leave(m, |st.arguments|, value));
            && Laid(r.mem, st.caller, r.sp, r.fp) && r.segments == Segments(st.caller)
            && r.pc == st.ret && r.sp == st.callerSp && r.fp == st.callerFp && r.result == value
  {
    var left := Leave(m, |st.arguments|, value);
    var mem := Write(Write(m.mem, SpSlot(st.page), left.sp), FpSlot(st.page), left.fp);
    assert forall a :: !On(st.page, a) ==> Read(mem, a) == Read(m.mem, a);
    hide Laid, Read, Write, PopSegmentTrap;
    SplitReturnAtTheTrap(m, st, value);
    PopTrapRegisters(left, st.page, st.caller.page);
    SenderSurvives(m.mem, mem, st, m.sp, m.fp);
  }

  lemma OtherPagesAgree(mem: seq<Word>, mem': seq<Word>, st: Stack, sp: int, page: nat)
    requires |mem| == |mem'| && forall a :: !On(page, a) ==> Read(mem', a) == Read(mem, a)
    requires page !in Segments(st) && st.page in Segments(st) && PAGE_WORDS * st.page <= sp
    ensures Agree(mem, mem', st, sp)
  {
    hide Read;
    forall a | sp <= a < Top(st.page) ensures Read(mem', a) == Read(mem, a) {
      assert On(st.page, a) && !On(page, a);
    }
    forall p, a | p in Segments(st) && p != st.page && On(p, a) ensures Read(mem', a) == Read(mem, a) {
      assert !On(page, a);
    }
  }

  lemma SoundSplitReturn(m: Machine, st: Stack, value: Word)
    requires Running(m, st) && st.Activation? && st.split
    ensures |m.segments| >= 2 && Sound(PopSegmentTrap(Leave(m, |st.arguments|, value)))
  {
    var left, page := Leave(m, |st.arguments|, value), st.page;
    SplitReturnAtTheTrap(m, st, value);
    PopTrapRegisters(left, page, st.caller.page);
    hide Conserved, Laid, Read, Write, PopSegmentTrap;
    ConservedWrite(left, page, SpSlot(page), left.sp);
    var saved := left.(mem := Write(left.mem, SpSlot(page), left.sp));
    ConservedWrite(saved, page, FpSlot(page), left.fp);
    ConservedPop(saved.(mem := Write(saved.mem, FpSlot(page), left.fp)));
  }

  // ---- Every step ----

  lemma CallKeeps(m: Machine, st: Stack, op: Op)
    requires Running(m, st) && Allowed(m, st, op) && op.Call?
    ensures Running(Step(m, op), Next(m, st, op))
  {
    hide Conserved, Laid, Read, Write, SplitCall, Holds;
    InPage(m.mem, st, m.sp, m.fp);
    if op.split {
      NextSegmentIsFresh(m);
      LaidSplitCall(m, st, op.descriptor, op.ret, op.body);
      SoundSplitCall(m, st, op.descriptor, op.ret, op.body);
    } else {
      LaidDirectCall(m.mem, st, m.sp, m.fp, ArgumentWords(op.descriptor), op.ret);
      ConservedWrite(m, st.page, m.sp - 1, op.ret);
      ConservedWrite(PushWord(m, op.ret), st.page, m.sp - 2, m.fp);
    }
  }

  lemma ReturnKeeps(m: Machine, st: Stack, op: Op)
    requires Running(m, st) && Allowed(m, st, op) && op.Return?
    ensures Running(Step(m, op), Next(m, st, op))
    ensures var r := Step(m, op);
            r.pc == st.ret && r.sp == st.callerSp && r.fp == st.callerFp && r.result == op.value
  {
    hide Conserved, Laid, Read, Write, PopSegmentTrap;
    var value := op.value;
    if st.split {
      SplitReturnAtTheTrap(m, st, value);
      LaidSplitReturn(m, st, value);
      SoundSplitReturn(m, st, value);
    } else {
      LaidDirectReturn(m, st, value);
      DirectReturnIsNoTrap(m, st, value);
    }
  }

  /** What every operation keeps: the layout of the activations, and no segment lost. */
  lemma StepKeeps(m: Machine, st: Stack, op: Op)
    requires Running(m, st) && Allowed(m, st, op)
    ensures Running(Step(m, op), Next(m, st, op))
  {
    hide Conserved, Laid, Read, Write, PopSegmentTrap, SplitCall, DirectCall, Holds;
    InPage(m.mem, st, m.sp, m.fp);
    match op {
      case Push(w) =>
        LaidPush(m.mem, st, m.sp, m.fp, w);
        ConservedWrite(m, st.page, m.sp - 1, w);
      case Pop =>
        LaidPop(m.mem, st, m.sp, m.fp, 1);
      case Store(k, w) =>
        LaidStore(m.mem, st, m.sp, m.fp, k, w);
        StoreBelowTop(m.mem, st, m.sp, m.fp, k);
        ConservedWrite(m, st.page, m.sp + k, w);
      case Call(_, _, _, _) =>
        CallKeeps(m, st, op);
      case Return(_, _) =>
        ReturnKeeps(m, st, op);
    }
  }

  lemma StoreBelowTop(mem: seq<Word>, st: Stack, sp: int, fp: Word, k: nat)
    requires Laid(mem, st, sp, fp) && k < |st.locals|
    ensures PAGE_WORDS * st.page <= sp + k < Top(st.page)
  {
  }

  lemma DirectReturnIsNoTrap(m: Machine, st: Stack, value: Word)
    requires Laid(m.mem, st, m.sp, m.fp) && st.Activation? && !st.split
    ensures Leave(m, |st.arguments|, value).pc != POP_TRAP
  {
  }

  // ---- One contiguous stack ----

  /**
   * The machine the segments stand for: one unbounded stack, its top word first.  The frame pointer is the
   * height of the stack where the frame starts, so it needs no addresses.
   */
  datatype Flat = Flat(words: seq<Word>, fp: int, pc: Word, result: Register)

  /** The result register belongs to the callee from its call on, until it returns a value. */
  datatype Register = Any | Holding(word: Word)

  function FlatStep(f: Flat, op: Op): Flat {
    match op
    case Push(w) => f.(words := [w] + f.words)
    case Pop => if f.words == [] then f else f.(words := f.words[1..])
    case Store(k, w) => if k < |f.words| then f.(words := f.words[k := w]) else f
    case Call(_, ret, body, _) => Flat([f.fp, ret] + f.words, |f.words| + 2, body, Any)
    case Return(n, value) =>
      if 2 + n <= f.fp <= |f.words| then
        var frame := f.words[|f.words| - f.fp..];
        Flat(frame[2 + n..], frame[0], frame[1], Holding(value))
      else f
  }

  /** The contiguous stack shows these activations. */
  ghost predicate FlatLaid(st: Stack, words: seq<Word>, fp: int) {
    match st
    case Root(_, _, _, _, locals) => words == locals && fp == 0
    case Activation(caller, _, _, ret, arguments, _, _, locals) =>
      var frame := |locals|;
      && frame + 2 + |arguments| <= |words| && fp == |words| - frame
      && words[..frame] == locals && words[frame + 1] == ret
      && words[frame + 2..frame + 2 + |arguments|] == arguments
      && FlatLaid(caller, words[frame + 2 + |arguments|..], words[frame])
  }

  lemma FlatRelocal(st: Stack, words: seq<Word>, fp: int, locals: seq<Word>)
    requires FlatLaid(st, words, fp)
    ensures |st.locals| <= |words| && words[..|st.locals|] == st.locals
    ensures FlatLaid(WithLocals(st, locals), locals + words[|st.locals|..], fp)
  {
    var tail, n, words' := words[|st.locals|..], |locals|, locals + words[|st.locals|..];
    if st.Activation? {
      var a := |st.arguments|;
      assert words'[n + 2..n + 2 + a] == words[|st.locals| + 2..|st.locals| + 2 + a];
      assert words'[n + 2 + a..] == words[|st.locals| + 2 + a..];
      assert words'[n] == words[|st.locals|] && words'[n + 1] == words[|st.locals| + 1];
      assert words'[..n] == locals;
    }
  }

  lemma FlatCall(st: Stack, words: seq<Word>, fp: int, n: nat, ret: Word, callee: Stack)
    requires FlatLaid(st, words, fp) && n <= |st.locals|
    requires callee.Activation? && callee.caller == WithLocals(st, st.locals[n..]) && callee.ret == ret
    requires callee.arguments == st.locals[..n] && callee.locals == []
    ensures FlatLaid(callee, [fp, ret] + words, |words| + 2)
  {
    FlatRelocal(st, words, fp, st.locals[n..]);
    var caller := callee.caller;
    assert st.locals[n..] + words[|st.locals|..] == words[n..] by {
      assert words == st.locals + words[|st.locals|..];
    }
    assert FlatLaid(caller, words[n..], fp);
    hide FlatLaid;
    CalleeWords(words, fp, ret, n);
    assert words[..n] == st.locals[..n];
    FlatActivation(callee, [fp, ret] + words, n);
  }

  lemma CalleeWords(words: seq<Word>, fp: int, ret: Word, n: nat)
    requires n <= |words|
    ensures var w := [fp, ret] + words;
            w[2..2 + n] == words[..n] && w[2 + n..] == words[n..] && w[0] == fp && w[1] == ret
  {
  }

  lemma FlatActivation(callee: Stack, w: seq<Word>, n: nat)
    requires callee.Activation? && callee.locals == [] && n == |callee.arguments| && 2 + n <= |w|
    requires w[1] == callee.ret && w[2..2 + n] == callee.arguments && FlatLaid(callee.caller, w[2 + n..], w[0])
    ensures FlatLaid(callee, w, |w|)
  {
  }

  lemma FlatReturn(st: Stack, f: Flat, n: nat, value: Word)
    requires FlatLaid(st, f.words, f.fp) && st.Activation? && n == |st.arguments|
    ensures var g := FlatStep(f, Return(n, value));
            FlatLaid(st.caller, g.words, g.fp) && g.pc == st.ret && g.result == Holding(value)
  {
    var frame := |st.locals|;
    assert f.words[|f.words| - f.fp..] == f.words[frame..];
    assert f.words[frame..][2 + n..] == f.words[frame + 2 + n..];
  }

  lemma FlatLocals(st: Stack, words: seq<Word>, fp: int, locals: seq<Word>, words': seq<Word>)
    requires FlatLaid(st, words, fp) && |st.locals| <= |words|
    requires words' == locals + words[|st.locals|..]
    ensures FlatLaid(WithLocals(st, locals), words', fp)
  {
    FlatRelocal(st, words, fp, locals);
  }

  lemma FlatLocalKeeps(m: Machine, st: Stack, f: Flat, op: Op)
    requires FlatLaid(st, f.words, f.fp) && Allowed(m, st, op) && (op.Push? || op.Pop? || op.Store?)
    ensures var g := FlatStep(f, op);
            FlatLaid(Next(m, st, op), g.words, g.fp) && g.pc == f.pc && g.result == f.result
  {
    FlatRelocal(st, f.words, f.fp, st.locals);
    hide FlatLaid;
    match op {
      case Push(w) =>
        PushedWords(f.words, st.locals, w);
        FlatLocals(st, f.words, f.fp, [w] + st.locals, [w] + f.words);
      case Pop =>
        PoppedWords(f.words, st.locals);
        FlatLocals(st, f.words, f.fp, st.locals[1..], f.words[1..]);
      case Store(k, w) =>
        StoredWords(f.words, st.locals, k, w);
        FlatLocals(st, f.words, f.fp, st.locals[k := w], f.words[k := w]);
    }
  }

  lemma PushedWords(words: seq<Word>, locals: seq<Word>, w: Word)
    requires locals <= words
    ensures [w] + words == ([w] + locals) + words[|locals|..]
  {
  }

  lemma PoppedWords(words: seq<Word>, locals: seq<Word>)
    requires locals <= words && locals != []
    ensures words[1..] == locals[1..] + words[|locals|..]
  {
  }

  lemma StoredWords(words: seq<Word>, locals: seq<Word>, k: nat, w: Word)
    requires locals <= words && k < |locals|
    ensures words[k := w] == locals[k := w] + words[|locals|..]
  {
  }

  lemma FlatKeeps(m: Machine, st: Stack, f: Flat, op: Op)
    requires FlatLaid(st, f.words, f.fp) && Allowed(m, st, op)
    ensures var g := FlatStep(f, op);
            && FlatLaid(Next(m, st, op), g.words, g.fp)
            && (g.pc == match op { case Call(_, _, body, _) => body case Return(_, _) => st.ret case _ => f.pc })
            && g.result == match op { case Call(_, _, _, _) => Any case Return(_, v) => Holding(v) case _ => f.result }
  {
    hide FlatLaid;
    match op {
      case Call(d, ret, body, split) =>
        FlatCall(st, f.words, f.fp, ArgumentWords(d), ret, Next(m, st, op));
      case Return(n, value) =>
        FlatReturn(st, f, n, value);
      case _ =>
        FlatLocalKeeps(m, st, f, op);
    }
  }

  // ---- Runs ----

  function RunMachine(m: Machine, ops: seq<Op>): Machine
    decreases |ops|
  {
    if ops == [] then m else RunMachine(Step(m, ops[0]), ops[1..])
  }

  function RunFlat(f: Flat, ops: seq<Op>): Flat
    decreases |ops|
  {
    if ops == [] then f else RunFlat(FlatStep(f, ops[0]), ops[1..])
  }

  /** Compiled code keeps to the rules at every step of the run. */
  predicate AllowedRun(m: Machine, st: Stack, ops: seq<Op>)
    decreases |ops|
  {
    ops == [] || (Allowed(m, st, ops[0]) && AllowedRun(Step(m, ops[0]), Next(m, st, ops[0]), ops[1..]))
  }

  function RunStack(m: Machine, st: Stack, ops: seq<Op>): Stack
    requires AllowedRun(m, st, ops)
    decreases |ops|
  {
    if ops == [] then st else RunStack(Step(m, ops[0]), Next(m, st, ops[0]), ops[1..])
  }

  /** Both machines are where compiled code expects them to be. */
  ghost predicate Simulates(m: Machine, f: Flat, st: Stack) {
    && Running(m, st) && FlatLaid(st, f.words, f.fp) && m.pc == f.pc
    && (f.result.Holding? ==> m.result == f.result.word)
  }

  lemma StepSimulates(m: Machine, f: Flat, st: Stack, op: Op)
    requires Simulates(m, f, st) && Allowed(m, st, op)
    ensures Simulates(Step(m, op), FlatStep(f, op), Next(m, st, op))
  {
    hide Laid, Conserved, FlatLaid, SplitCall, PopSegmentTrap, Read, Write;
    StepKeeps(m, st, op);
    FlatKeeps(m, st, f, op);
    if op.Return? {
      ReturnKeeps(m, st, op);
    } else if op.Call? && op.split {
      InPage(m.mem, st, m.sp, m.fp);
      RunningIsLast(m.mem, st, m.sp, m.fp);
      NextSegmentIsFresh(m);
      LaidSplitCall(m, st, op.descriptor, op.ret, op.body);
    }
  }

  /**
   * For every run, with any calls taking the overflow path and splits nested to any depth, the segmented
   * machine stays in step with the contiguous one.
   */
  lemma {:induction false} SegmentsSimulateOneStack(m: Machine, f: Flat, st: Stack, ops: seq<Op>)
    requires Simulates(m, f, st) && AllowedRun(m, st, ops)
    ensures Simulates(RunMachine(m, ops), RunFlat(f, ops), RunStack(m, st, ops))
    decreases |ops|
  {
    if ops != [] {
      StepSimulates(m, f, st, ops[0]);
      SegmentsSimulateOneStack(Step(m, ops[0]), FlatStep(f, ops[0]), Next(m, st, ops[0]), ops[1..]);
    }
  }

  /** Machines in step show compiled code the same: its locals, its arguments, and the result of what it called. */
  lemma SameView(m: Machine, f: Flat, st: Stack, k: nat)
    requires Simulates(m, f, st)
    ensures m.pc == f.pc && (f.result.Holding? ==> m.result == f.result.word)
    ensures k < |st.locals| ==> k < |f.words| && Read(m.mem, m.sp + k) == f.words[k]
    ensures st.Activation? && k < |st.arguments| ==>
              0 <= |f.words| - f.fp + 2 + k < |f.words| &&
              Read(m.mem, m.fp + 2 + k) == f.words[|f.words| - f.fp + 2 + k]
  {
    FlatRelocal(st, f.words, f.fp, st.locals);
    if st.Activation? && k < |st.arguments| {
      var frame := |st.locals|;
      assert f.words[frame + 2..frame + 2 + |st.arguments|][k] == st.arguments[k];
    }
  }

  // ---- Last in, first out ----

  /** Calls and returns match, starting d calls deep. */
  predicate Balanced(ops: seq<Op>, d: nat) {
    if ops == [] then d == 0
    else match ops[0] {
           case Call(_, _, _, _) => Balanced(ops[1..], d + 1)
           case Return(_, _) => d > 0 && Balanced(ops[1..], d - 1)
           case _ => Balanced(ops[1..], d)
         }
  }

  function Unwind(st: Stack, d: nat): Stack {
    if d == 0 || st.Root? then st else Unwind(st.caller, d - 1)
  }

  function Depth(st: Stack): nat {
    if st.Root? then 0 else 1 + Depth(st.caller)
  }

  /** The same call, whatever its callee has done to its own locals. */
  predicate SameActivation(a: Stack, b: Stack) {
    && a.Activation? && b.Activation?
    && a.caller == b.caller && a.callerSp == b.callerSp && a.callerFp == b.callerFp
    && a.ret == b.ret && |a.arguments| == |b.arguments|
  }

  lemma UnwindLocals(st: Stack, locals: seq<Word>, d: nat)
    requires d < Depth(st)
    ensures d < Depth(WithLocals(st, locals))
    ensures SameActivation(Unwind(WithLocals(st, locals), d), Unwind(st, d))
  {
    if d == 0 {
    } else {
      UnwindIsActivation(st.caller, d - 1);
    }
  }

  lemma UnwindIsActivation(st: Stack, d: nat)
    requires d < Depth(st)
    ensures Unwind(st, d).Activation?
  {
  }

  lemma {:induction false} BalancedRunKeepsActivation(m: Machine, st: Stack, ops: seq<Op>, d: nat)
    requires AllowedRun(m, st, ops) && Balanced(ops, d) && d < Depth(st)
    ensures SameActivation(RunStack(m, st, ops), Unwind(st, d))
    decreases |ops|
  {
    hide Step, WithLocals;
    if ops == [] {
    } else {
      var op, next := ops[0], Next(m, st, ops[0]);
      match op {
        case Call(_, _, _, _) =>
          UnwindLocals(st, next.caller.locals, d);
          BalancedRunKeepsActivation(Step(m, op), next, ops[1..], d + 1);
        case Return(_, _) =>
          BalancedRunKeepsActivation(Step(m, op), next, ops[1..], d - 1);
        case _ =>
          UnwindLocals(st, next.locals, d);
          BalancedRunKeepsActivation(Step(m, op), next, ops[1..], d);
      }
    }
  }

  lemma {:induction false} RunKeeps(m: Machine, st: Stack, ops: seq<Op>)
    requires Running(m, st) && AllowedRun(m, st, ops)
    ensures Running(RunMachine(m, ops), RunStack(m, st, ops))
    decreases |ops|
  {
    if ops != [] {
      StepKeeps(m, st, ops[0]);
      RunKeeps(Step(m, ops[0]), Next(m, st, ops[0]), ops[1..]);
    }
  }

  /**
   * Whatever a callee does between its call and its matching return, and whether or not the call or any call
   * inside was split, the return resumes the sender with the value at its own return pointer and frame pointer,
   * with the stack pointer just past the popped arguments, in the segment it called from, with all below intact.
   */
  lemma ReturnResumesSender(m: Machine, st: Stack, call: Op, body: seq<Op>, n: nat, value: Word)
    requires Running(m, st) && call.Call? && Balanced(body, 0) && Allowed(m, st, call)
    requires AllowedRun(Step(m, call), Next(m, st, call), body)
    requires var b, stb := RunMachine(Step(m, call), body), RunStack(Step(m, call), Next(m, st, call), body);
             Allowed(b, stb, Return(n, value))
    ensures var r := Step(RunMachine(Step(m, call), body), Return(n, value));
            && n == ArgumentWords(call.descriptor)
            && r.pc == call.ret && r.fp == m.fp && r.sp == m.sp + n && r.result == value && r.segments == m.segments
            && Running(r, WithLocals(st, st.locals[n..]))
  {
    hide Laid, Conserved, SplitCall, DirectCall, PopSegmentTrap, Read, Write;
    var m1, st1 := Step(m, call), Next(m, st, call);
    StepKeeps(m, st, call);
    RunKeeps(m1, st1, body);
    BalancedRunKeepsActivation(m1, st1, body, 0);
    var stb := RunStack(m1, st1, body);
    assert stb.caller == WithLocals(st, st.locals[ArgumentWords(call.descriptor)..]);
    ReturnKeeps(RunMachine(m1, body), stb, Return(n, value));
  }

  // ---- What a send passes ----

  /**
   * A call that announces so many object arguments and so many bytes of native ones finds the receiver and all of
   * them in its frame, the words on top of its sender's stack.  A split leaves them at the top of the new segment.
   */
  lemma CallTakesItsArguments(m: Machine, st: Stack, oops: nat, bytes: nat, ret: Word, body: Word, split: bool)
    requires Running(m, st) && oops < 0x1_0000 && bytes < 0x1_0000 && bytes % 8 == 0
    requires 1 + oops + bytes / 8 <= |st.locals| && ret != POP_TRAP && PAGE_WORDS * st.page <= m.sp - 2
    requires split ==> CanAllocate(m) && 1 + oops + bytes / 8 + 3 <= PAGE_WORDS - HEADER_WORDS
    ensures var n, op := 1 + oops + bytes / 8, Call(oops + 0x1_0000 * bytes, ret, body, split);
            var r := Step(m, op);
            && Allowed(m, st, op) && Running(r, Next(m, st, op)) && r.pc == body && r.sp == r.fp
            && (forall a :: r.fp + 2 <= a < r.fp + 2 + n ==> Read(r.mem, a) == Read(m.mem, a - (r.fp + 2) + m.sp))
            && r.fp + 2 + n == (if split then Top(NextSegment(m)) else m.sp + n)
            && r.segments == (if split then m.segments + [NextSegment(m)] else m.segments)
  {
    hide Laid, Conserved, SplitCall, Read, Write, Holds, ArgumentWords;
    var n, d := 1 + oops + bytes / 8, oops + 0x1_0000 * bytes;
    DescriptorCounts(oops, bytes);
    DescriptorIsWord(oops, bytes);
    var op := Call(d, ret, body, split);
    CallKeeps(m, st, op);
    LocalsHeld(m.mem, st, m.sp, m.fp);
    InPage(m.mem, st, m.sp, m.fp);
    ArgumentsInFrame(Step(m, op).mem, Next(m, st, op), Step(m, op).sp, Step(m, op).fp);
    HeldTwice(m.mem, m.sp, st.locals, Step(m, op).mem, Step(m, op).fp + 2, n);
    if split {
      SoundSplitCall(m, st, d, ret, body);
      NextSegmentIsFresh(m);
      RunningIsLast(m.mem, st, m.sp, m.fp);
      LaidSplitCall(m, st, d, ret, body);
    }
  }

  lemma DescriptorIsWord(oops: nat, bytes: nat)
    requires oops < 0x1_0000 && bytes < 0x1_0000 && bytes % 8 == 0
    ensures var d := oops + 0x1_0000 * bytes; d < 0x1_0000_0000 && d / 0x10000 % 8 == 0
  {
    Bits.DivModUnique(oops + 0x1_0000 * bytes, 0x1_0000, bytes, oops);
  }

  lemma ArgumentsInFrame(mem: seq<Word>, st: Stack, sp: int, fp: Word)
    requires Laid(mem, st, sp, fp) && st.Activation? && st.locals == []
    ensures sp == fp && Holds(mem, fp + 2, st.arguments)
    ensures fp + 2 + |st.arguments| == if st.split then Top(st.page) else st.callerSp
  {
  }

  lemma HeldTwice(mem: seq<Word>, a: int, ws: seq<Word>, mem': seq<Word>, a': int, n: nat)
    requires n <= |ws| && Holds(mem, a, ws) && Holds(mem', a', ws[..n])
    ensures forall x :: a' <= x < a' + n ==> Read(mem', x) == Read(mem, x - a' + a)
  {
    forall x | a' <= x < a' + n ensures Read(mem', x) == Read(mem, x - a' + a) {
      var k := x - a';
      assert Read(mem, a + k) == ws[k] && Read(mem', a' + k) == ws[..n][k];
    }
  }

  /** And the matching return pops the receiver and all arguments. */
  lemma ReturnPopsArguments(m: Machine, st: Stack, oops: nat, bytes: nat, ret: Word, body: Word, split: bool,
                            run: seq<Op>, n: nat, value: Word)
    requires Running(m, st) && Balanced(run, 0) && oops < 0x1_0000 && bytes < 0x1_0000
    requires var call := Call(oops + 0x1_0000 * bytes, ret, body, split);
             && Allowed(m, st, call) && AllowedRun(Step(m, call), Next(m, st, call), run)
             && var b, stb := RunMachine(Step(m, call), run), RunStack(Step(m, call), Next(m, st, call), run);
             Allowed(b, stb, Return(n, value))
    ensures var call := Call(oops + 0x1_0000 * bytes, ret, body, split);
            var r := Step(RunMachine(Step(m, call), run), Return(n, value));
            && r.sp == m.sp + 1 + oops + bytes / 8 && r.fp == m.fp && r.pc == ret && r.result == value
  {
    hide Running, Step, Allowed, AllowedRun, RunMachine, RunStack, ArgumentWords;
    DescriptorCounts(oops, bytes);
    ReturnResumesSender(m, st, Call(oops + 0x1_0000 * bytes, ret, body, split), run, n, value);
  }

  // ---- What the trampolines rely on ----

  /** Masking a stack pointer in bytes by the page size finds the end of the running segment, the last one. */
  lemma MaskFindsRunningSegment(m: Machine, st: Stack)
    requires Running(m, st) && 8 * m.sp < Bits.WORD64
    ensures m.sp >= 0
    ensures Bits.And(8 * m.sp, Bits.WORD64 - 4096) + 4096 == 8 * (PAGE_WORDS * st.page + PAGE_WORDS)
    ensures m.segments != [] && m.segments[|m.segments| - 1] == st.page == PageOf(m.sp)
  {
    InPage(m.mem, st, m.sp, m.fp);
    RunningIsLast(m.mem, st, m.sp, m.fp);
    hide Conserved, Laid;
    Bits.Pow2Values();
    Bits.Pow2Words();
    Bits.MaskHigh(8 * m.sp, 12, 64);
    Bits.DivModUnique(8 * m.sp, 4096, st.page, 8 * (m.sp - PAGE_WORDS * st.page));
  }

  /** The data the thread of a stack keeps in its first segment. */
  function ThreadData(st: Stack): seq<Word> {
    if st.Root? then st.data else ThreadData(st.caller)
  }

  /** From any segment the header leads to the data of the thread, in the words below the header of the first one. */
  lemma ThreadDataReachable(m: Machine, st: Stack)
    requires Running(m, st)
    ensures m.segments != [] && Read(m.mem, ThreadSlot(PageOf(m.sp))) == m.thread == ThreadBase(m.segments[0])
    ensures |ThreadData(st)| == THREAD_DATA_WORDS && Holds(m.mem, m.thread, ThreadData(st))
  {
    InPage(m.mem, st, m.sp, m.fp);
    RunningIsLast(m.mem, st, m.sp, m.fp);
    RootHoldsData(m.mem, st, m.sp, m.fp);
  }

  lemma {:induction false} RootHoldsData(mem: seq<Word>, st: Stack, sp: int, fp: Word)
    requires Laid(mem, st, sp, fp)
    ensures Segments(st) != [] && |ThreadData(st)| == THREAD_DATA_WORDS
    ensures Holds(mem, ThreadBase(Segments(st)[0]), ThreadData(st))
  {
    if st.Activation? {
      RootHoldsData(mem, st.caller, st.callerSp, st.callerFp);
    }
  }

  /** No step of compiled code, and no trap, gives a thread other data. */
  lemma StepKeepsThreadData(m: Machine, st: Stack, op: Op)
    requires Allowed(m, st, op)
    ensures ThreadData(Next(m, st, op)) == ThreadData(st)
  {
  }

  lemma {:induction false} RunKeepsThreadData(m: Machine, st: Stack, ops: seq<Op>)
    requires Running(m, st) && AllowedRun(m, st, ops)
    ensures ThreadData(RunStack(m, st, ops)) == ThreadData(st)
    ensures RunMachine(m, ops).thread == m.thread
    decreases |ops|
  {
    if ops != [] {
      hide Running, Step;
      StepKeepsThreadData(m, st, ops[0]);
      StepKeeps(m, st, ops[0]);
      StepKeepsThread(m, st, ops[0]);
      RunKeepsThreadData(Step(m, ops[0]), Next(m, st, ops[0]), ops[1..]);
    }
  }

  lemma StepKeepsThread(m: Machine, st: Stack, op: Op)
    requires Running(m, st) && Allowed(m, st, op)
    ensures Step(m, op).thread == m.thread
  {
    hide Laid, Read, Write;
    if op.Return? && st.split {
      SplitReturnAtTheTrap(m, st, op.value);
    }
  }

  /** So whatever compiled code runs, the traps find the words of the thread data as they were when it started. */
  lemma ThreadDataSurvives(m: Machine, st: Stack, ops: seq<Op>, k: nat)
    requires Running(m, st) && AllowedRun(m, st, ops) && k < THREAD_DATA_WORDS
    ensures var r := RunMachine(m, ops); r.thread == m.thread && Read(r.mem, m.thread + k) == Read(m.mem, m.thread + k)
  {
    hide Running, RunMachine, RunStack, AllowedRun, Laid;
    RunKeeps(m, st, ops);
    RunKeepsThreadData(m, st, ops);
    ThreadDataReachable(m, st);
    ThreadDataReachable(RunMachine(m, ops), RunStack(m, st, ops));
    assert Read(m.mem, m.thread + k) == ThreadData(st)[k];
  }
}
