/** Whole lives of a thread: C code enters compiled code on a first segment, runs it, and gets its own stack back. */
module SegmentThreads {
  import opened SegmentMachines
  import opened SegmentSimulation
  import opened SegmentRuns

  // ---- The segment to run on ----

  /**
   * The address answered for the segment to run on is the header of the running segment exactly when no
   * segment was live before.  Else it lies within that header, and what it shows as the stack pointer of the
   * segment lies beyond the end of the segment.
   */
  lemma ValidSegmentIsHeader(m: Machine)
    ensures var r := if m.segments == [] then StartThread(m) else m;
            var running := r.segments[|r.segments| - 1];
            && (ValidSegment(m) == Top(running) <==> m.segments == [])
            && (m.segments != [] ==>
                  && ValidSegment(m) == Top(running) + 6 && On(running, ValidSegment(m))
                  && !On(running, ValidSegment(m) + (SpSlot(running) - Top(running))))
  {
  }

  /** A thread on the first page of its pool, as it is after it started. */
  function OneLiveSegment(): Machine {
    StartThread(Machine(seq(2 * PAGE_WORDS, _ => 0), 0, 0, 0, 0, [], [], 1, 0, 0))
  }

  /** There the header starts at word 1016 and the answer is 1022, so the stack pointer is sought at 1027. */
  lemma OneLiveSegmentIsMissed()
    ensures var m := OneLiveSegment();
            && Sound(m) && m.segments == [1] && |m.mem| == 1024
            && Top(1) == 1016 && ValidSegment(m) == 1022 && ValidSegment(m) + (SpSlot(1) - Top(1)) == 1027
  {
    var idle := Machine(seq(2 * PAGE_WORDS, _ => 0), 0, 0, 0, 0, [], [], 1, 0, 0);
    assert Sound(idle);
    StartedThread(idle);
  }

  // ---- Starting a thread ----

  /** A first segment is laid out for the thread, with nothing lost. */
  lemma StartedThread(m: Machine)
    requires Sound(m) && CanAllocate(m) && m.segments == []
    ensures var page, s := NextSegment(m), StartThread(m);
            && Sound(s) && s.segments == [page] && s.thread == ThreadBase(page) && |s.mem| == |m.mem|
            && Top(page) + HEADER_WORDS <= |m.mem|
            && Read(s.mem, SpSlot(page)) == Read(s.mem, ThreadSlot(page)) == ThreadBase(page)
            && Read(s.mem, FpSlot(page)) == 0 && Holds(s.mem, ThreadBase(page), [0, 0, 0, 0, 0, 0])
  {
    NextSegmentIsFresh(m);
    var page, s := NextSegment(m), StartThread(m);
    ThreadIsPlaced(m);
    hide StartThread;
    FirstSegmentIsSound(m, s.mem);
  }

  lemma ThreadIsPlaced(m: Machine)
    requires Top(NextSegment(m)) + HEADER_WORDS <= |m.mem|
    ensures var page, s, a := NextSegment(m), StartThread(m), AllocateSegment(m);
            && s == a.(mem := s.mem, segments := [page], thread := ThreadBase(page)) && |s.mem| == |m.mem|
            && Read(s.mem, SpSlot(page)) == Read(s.mem, ThreadSlot(page)) == ThreadBase(page)
            && Read(s.mem, FpSlot(page)) == 0 && Holds(s.mem, ThreadBase(page), [0, 0, 0, 0, 0, 0])
  {
  }

  lemma FirstSegmentIsSound(m: Machine, mem: seq<Word>)
    requires Sound(m) && CanAllocate(m) && m.segments == [] && |mem| == |m.mem|
    requires Read(mem, ThreadSlot(NextSegment(m))) == ThreadBase(NextSegment(m))
    ensures var a, page := AllocateSegment(m), NextSegment(m);
            Conserved(mem, [page], a.free, a.start, a.carved, ThreadBase(page))
  {
    NextSegmentIsFresh(m);
    var free, page := AllocateSegment(m).free, NextSegment(m);
    forall p ensures p in m.free <==> p in free || (p == page && m.free != []) {
    }
    assert m.free != [] ==> forall i :: 0 < i < |m.free| ==> m.free[i] != m.free[0];
  }

  /** What a thread has on its stack when C code enters it. */
  function FirstStack(page: nat, cSp: int, cFp: Word, back: Word): Stack {
    Root(page, ThreadBase(page), 0, [cSp, cFp, back, 0, 0, 0], [])
  }

  /** Compiled code that is entered on a new thread finds an empty stack, as the contiguous machine has it. */
  lemma EnteredThreadSimulates(m: Machine, cSp: int, cFp: Word, back: Word, entry: Word)
    requires Sound(m) && CanAllocate(m) && m.segments == []
    ensures var page := NextSegment(m);
            Simulates(SwitchToSmalltalk(StartThread(m), page, cSp, cFp, back, entry),
                      Flat([], 0, entry, Any), FirstStack(page, cSp, cFp, back))
  {
    hide StartThread, Conserved;
    StartedThread(m);
    var page, s := NextSegment(m), StartThread(m);
    var base := ThreadBase(page);
    SwitchedWords(s.mem, page, cSp, cFp, back);
    ConservedWrite(s, page, base, cSp);
    var s1 := s.(mem := Write(s.mem, base, cSp));
    ConservedWrite(s1, page, base + 1, cFp);
    var s2 := s1.(mem := Write(s1.mem, base + 1, cFp));
    ConservedWrite(s2, page, base + 2, back);
  }

  lemma SwitchedWords(mem: seq<Word>, page: nat, cSp: int, cFp: Word, back: Word)
    requires Top(page) + HEADER_WORDS <= |mem| && Holds(mem, ThreadBase(page), [0, 0, 0, 0, 0, 0])
    ensures var base := ThreadBase(page);
            var mem' := Write(Write(Write(mem, base, cSp), base + 1, cFp), base + 2, back);
            && Holds(mem', base, [cSp, cFp, back, 0, 0, 0])
            && Read(mem', SpSlot(page)) == Read(mem, SpSlot(page))
            && Read(mem', FpSlot(page)) == Read(mem, FpSlot(page))
  {
    var base, words := ThreadBase(page), [0, 0, 0, 0, 0, 0];
    assert Read(mem, base + 3) == words[3] && Read(mem, base + 4) == words[4] && Read(mem, base + 5) == words[5];
  }

  // ---- Ending a thread ----

  /** Back in C the registers are what the thread data holds, and no segment is lost by popping the first one. */
  lemma EndedThread(m: Machine, st: Stack)
    requires Running(m, st) && st.Root?
    ensures var c, data := ReturnToC(m), ThreadData(st);
            && |data| == THREAD_DATA_WORDS && c.segments == [st.page]
            && Sound(PopSegment(c)) && PopSegment(c).segments == [] && c.result == m.result
            && c.sp == data[0] && c.fp == data[1] && c.pc == data[2]
  {
    hide Conserved, Write, Laid;
    var page, data := st.page, ThreadData(st);
    InPage(m.mem, st, m.sp, m.fp);
    ThreadDataReachable(m, st);
    ConservedWrite(m, page, SpSlot(page), m.sp);
    var s := m.(mem := Write(m.mem, SpSlot(page), m.sp));
    ConservedWrite(s, page, FpSlot(page), m.fp);
    LaidSaveRegisters(m.mem, st, m.sp, m.fp, m.sp, m.fp);
    var mem := Write(s.mem, FpSlot(page), m.fp);
    RootHoldsData(mem, st, m.sp, m.fp);
    assert Read(mem, m.thread + 0) == data[0];
    assert Read(mem, m.thread + 1) == data[1] && Read(mem, m.thread + 2) == data[2];
    ConservedPop(ReturnToC(m));
  }

  // ---- Runs over many threads ----

  /** What happens to the segments: C enters compiled code on a new thread, that code runs, and returns to C. */
  datatype ThreadOp =
    | Start(cSp: int, cFp: Word, back: Word, entry: Word)
    | Do(op: Op)
    | End

  datatype Session = Idle | Live(stack: Stack)

  predicate ThreadAllowed(m: Machine, s: Session, t: ThreadOp) {
    match t
    case Start(_, _, _, _) => s.Idle? && CanAllocate(m)
    case Do(op) => s.Live? && Allowed(m, s.stack, op)
    case End => s.Live? && s.stack.Root?
  }

  function ThreadStep(m: Machine, t: ThreadOp): Machine {
    match t
    case Start(cSp, cFp, back, entry) => SwitchToSmalltalk(StartThread(m), NextSegment(m), cSp, cFp, back, entry)
    case Do(op) => Step(m, op)
    case End => var c := ReturnToC(m); if c.segments == [] then c else PopSegment(c)
  }

  function ThreadNext(m: Machine, s: Session, t: ThreadOp): Session
    requires ThreadAllowed(m, s, t)
  {
    match t
    case Start(cSp, cFp, back, _) => Live(FirstStack(NextSegment(m), cSp, cFp, back))
    case Do(op) => Live(Next(m, s.stack, op))
    case End => Idle
  }

  /** Between threads all segments are free; during one they are its own or free. */
  ghost predicate Serving(m: Machine, s: Session) {
    match s
    case Idle => Sound(m) && m.segments == []
    case Live(st) => Running(m, st)
  }

  lemma ThreadStepKeeps(m: Machine, s: Session, t: ThreadOp)
    requires Serving(m, s) && ThreadAllowed(m, s, t)
    ensures Serving(ThreadStep(m, t), ThreadNext(m, s, t))
  {
    hide Sound, Running, Step, SwitchToSmalltalk, StartThread, ReturnToC;
    match t {
      case Start(cSp, cFp, back, entry) => EnteredThreadSimulates(m, cSp, cFp, back, entry);
      case Do(op) => StepKeeps(m, s.stack, op);
      case End => EndedThread(m, s.stack);
    }
  }

  function RunThreads(m: Machine, ts: seq<ThreadOp>): Machine
    decreases |ts|
  {
    if ts == [] then m else RunThreads(ThreadStep(m, ts[0]), ts[1..])
  }

  predicate AllowedThreads(m: Machine, s: Session, ts: seq<ThreadOp>)
    decreases |ts|
  {
    ts == [] || (ThreadAllowed(m, s, ts[0]) && AllowedThreads(ThreadStep(m, ts[0]), ThreadNext(m, s, ts[0]), ts[1..]))
  }

  function RunSession(m: Machine, s: Session, ts: seq<ThreadOp>): Session
    requires AllowedThreads(m, s, ts)
    decreases |ts|
  {
    if ts == [] then s else RunSession(ThreadStep(m, ts[0]), ThreadNext(m, s, ts[0]), ts[1..])
  }

  lemma {:induction false} ThreadRunKeeps(m: Machine, s: Session, ts: seq<ThreadOp>)
    requires Serving(m, s) && AllowedThreads(m, s, ts)
    ensures Serving(RunThreads(m, ts), RunSession(m, s, ts))
    decreases |ts|
  {
    if ts != [] {
      ThreadStepKeeps(m, s, ts[0]);
      ThreadRunKeeps(ThreadStep(m, ts[0]), ThreadNext(m, s, ts[0]), ts[1..]);
    }
  }

  /** Over any number of threads every page carved from the pool is in exactly one list, and once. */
  lemma SegmentsAreConserved(m: Machine, ts: seq<ThreadOp>, p: nat)
    requires Serving(m, Idle) && AllowedThreads(m, Idle, ts)
    ensures var r := RunThreads(m, ts);
            && Unique(r.segments) && Unique(r.free)
            && (r.start <= p < r.start + r.carved <==> p in r.segments || p in r.free)
            && !(p in r.segments && p in r.free)
            && (RunSession(m, Idle, ts).Idle? ==> r.segments == [])
  {
    ThreadRunKeeps(m, Idle, ts);
  }

  /**
   * C code that enters compiled code on a new thread gets its own stack and return address back when that code
   * returns to it, with the result, whatever it did and however often its stack was split.
   */
  lemma ThreadReturnsToC(m: Machine, cSp: int, cFp: Word, back: Word, entry: Word, ops: seq<Op>)
    requires Sound(m) && CanAllocate(m) && m.segments == []
    requires var s, st := ThreadStep(m, Start(cSp, cFp, back, entry)), FirstStack(NextSegment(m), cSp, cFp, back);
             AllowedRun(s, st, ops) && RunStack(s, st, ops).Root?
    ensures var b := RunMachine(ThreadStep(m, Start(cSp, cFp, back, entry)), ops);
            var r := ThreadStep(b, End);
            && r.sp == cSp && r.fp == cFp && r.pc == back && r.result == b.result
            && Sound(r) && r.segments == []
  {
    hide Sound, Running, Step, SwitchToSmalltalk, StartThread, ReturnToC, RunMachine, RunStack, AllowedRun;
    var s, st := ThreadStep(m, Start(cSp, cFp, back, entry)), FirstStack(NextSegment(m), cSp, cFp, back);
    EnteredThreadSimulates(m, cSp, cFp, back, entry);
    RunKeeps(s, st, ops);
    RunKeepsThreadData(s, st, ops);
    EndedThread(RunMachine(s, ops), RunStack(s, st, ops));
  }
}
