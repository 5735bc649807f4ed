/**
 * The machine that runs compiled code on a chain of small stack segments, as functions on its state.
 * Memory is a sequence of 64-bit words and every address counts words.  A segment is a page of 512 words
 * whose last 8 words are its header; its stack grows down from the header.
 */
module SegmentMachines {

  type Word = int

  const PAGE_WORDS: nat := 512
  const HEADER_WORDS: nat := 8

  /** The size of the data a thread keeps below the header of its first segment. */
  const THREAD_DATA_WORDS: nat := 6

  /** The code address of the trap that pops a segment.  No sender has this return address. */
  const POP_TRAP: Word := -1

  /** Where the data of a thread starts in its first segment; its stack starts there too, and grows down. */
  function ThreadBase(page: nat): nat { Top(page) - THREAD_DATA_WORDS }

  /** The word address of the links in the header of a segment, which its list node is known by. */
  function LinksOf(page: nat): nat { PAGE_WORDS * page + PAGE_WORDS - 2 }

  /** Where the header of a segment starts, which is where its stack starts. */
  function Top(page: nat): nat { PAGE_WORDS * page + PAGE_WORDS - HEADER_WORDS }

  /** Header words, by their distance from the end of the segment. */
  function ThreadSlot(page: nat): nat { PAGE_WORDS * page + PAGE_WORDS - 6 }
  function FpSlot(page: nat): nat { PAGE_WORDS * page + PAGE_WORDS - 4 }
  function SpSlot(page: nat): nat { PAGE_WORDS * page + PAGE_WORDS - 3 }

  /** The header as the trampolines address it, in bytes before the end of the segment. */
  lemma HeaderLayout(page: nat)
    ensures var end := 4096 * page + 4096;
            && 8 * Top(page) == end - 64 && 8 * LinksOf(page) == end - 16 && 8 * SpSlot(page) == end - 24
            && 8 * FpSlot(page) == end - 32 && 8 * ThreadSlot(page) == end - 48
  {
  }

  /** The segment a stack pointer lies in, from the page mask the trampolines apply. */
  function PageOf(sp: int): int { sp / PAGE_WORDS }

  /** Whether an address lies in a segment, header included. */
  predicate On(page: nat, a: int) { PAGE_WORDS * page <= a < PAGE_WORDS * page + PAGE_WORDS }

  function Read(mem: seq<Word>, a: int): Word {
    if 0 <= a < |mem| then mem[a] else 0
  }

  function Write(mem: seq<Word>, a: int, w: Word): (r: seq<Word>)
    ensures |r| == |mem|
  {
    if 0 <= a < |mem| then mem[a := w] else mem
  }

  /** Copies n words from src to dst, and clears n words at dst. */
  function Copy(mem: seq<Word>, dst: int, src: int, n: nat): (r: seq<Word>)
    ensures |r| == |mem|
    ensures forall a :: 0 <= a < |mem| ==> r[a] == if dst <= a < dst + n then Read(mem, src + a - dst) else mem[a]
  {
    seq(|mem|, a requires 0 <= a < |mem| => if dst <= a < dst + n then Read(mem, src + a - dst) else mem[a])
  }

  function Clear(mem: seq<Word>, dst: int, n: nat): (r: seq<Word>)
    ensures |r| == |mem|
    ensures forall a :: 0 <= a < |mem| ==> r[a] == if dst <= a < dst + n then 0 else mem[a]
  {
    seq(|mem|, a requires 0 <= a < |mem| => if dst <= a < dst + n then 0 else mem[a])
  }

  /**
   * The memory, the registers, the last one for results, the segments of the thread from the oldest to the
   * running one, the free segments, and how many pages were carved from the pool, which starts at page `start`.
   */
  datatype Machine = Machine(
    mem: seq<Word>, sp: int, fp: Word, pc: Word, result: Word,
    segments: seq<nat>, free: seq<nat>, start: nat, carved: nat, thread: Word)

  /** The segment the next allocation takes: the first free one, or else the next page of the pool. */
  function NextSegment(m: Machine): nat {
    if m.free != [] then m.free[0] else m.start + m.carved
  }

  function AllocateSegment(m: Machine): Machine {
    var page := NextSegment(m);
    m.(mem := Write(Clear(m.mem, Top(page), HEADER_WORDS), SpSlot(page), Top(page)),
       free := if m.free != [] then m.free[1..] else [],
       carved := if m.free != [] then m.carved else m.carved + 1)
  }

  function CreateNewSegment(m: Machine): Machine {
    var page := NextSegment(m);
    var a := AllocateSegment(m);
    a.(mem := Write(a.mem, ThreadSlot(page), m.thread), segments := m.segments + [page])
  }

  /** The first segment of a thread also holds the data of the thread, cleared, right below its header. */
  function StartThread(m: Machine): Machine {
    var page := NextSegment(m);
    var a := AllocateSegment(m);
    var base := ThreadBase(page);
    a.(mem := Clear(Write(Write(a.mem, SpSlot(page), base), ThreadSlot(page), base), base, THREAD_DATA_WORDS),
       segments := [page], thread := base)
  }

  /**
   * The address answered for the segment to run on: the header of a first segment, or the last node of the
   * list of segments, which is not corrected to the header it is part of.
   */
  function ValidSegment(m: Machine): nat {
    if m.segments != [] then LinksOf(m.segments[|m.segments| - 1]) else Top(NextSegment(m))
  }

  /** Pops the running segment, which is the last of the thread. */
  function PopSegment(m: Machine): Machine
    requires m.segments != []
  {
    var n := |m.segments| - 1;
    m.(segments := m.segments[..n], free := m.free + [m.segments[n]], thread := if n == 0 then 0 else m.thread)
  }

  /** Restores the frame pointer and returns with a value, both pointers from the stack at sp. */
  function ReturnToSender(m: Machine, sp: int, value: Word): Machine {
    m.(fp := Read(m.mem, sp), pc := Read(m.mem, sp + 1), sp := sp + 2, result := value)
  }

  /** Saves the registers in the header of the running segment. */
  function SaveRegisters(m: Machine): Machine {
    var end := PAGE_WORDS * PageOf(m.sp) + PAGE_WORDS;
    m.(mem := Write(Write(m.mem, end - 3, m.sp), end - 4, m.fp))
  }

  /** The words of arguments a descriptor announces: the receiver, the object and the native arguments. */
  function ArgumentWords(descriptor: nat): nat {
    descriptor / 0x10000 / 8 + descriptor % 0x10000 + 1
  }

  /** The low half of a descriptor counts object arguments, the high half bytes of native arguments. */
  lemma DescriptorCounts(oops: nat, bytes: nat)
    requires oops < 0x1_0000
    ensures ArgumentWords(oops + 0x1_0000 * bytes) == 1 + oops + bytes / 8
  {
    assert (oops + 0x1_0000 * bytes) / 0x1_0000 == bytes && (oops + 0x1_0000 * bytes) % 0x1_0000 == oops;
  }

  /** The new segment: the copied words, with the trap as return address and no frame below. */
  function MoveArguments(mem: seq<Word>, page: nat, curSp: int, total: nat): (r: seq<Word>)
    ensures |r| == |mem|
  {
    var newSp := Read(mem, SpSlot(page)) - total;
    var copied := Copy(mem, newSp, curSp, total);
    Write(Write(Write(copied, SpSlot(page), newSp - 1), newSp + 1, POP_TRAP), newSp - 1, Read(copied, FpSlot(page)))
  }

  /** The old segment: what its sender needs to go on, in place of the last two words that were moved. */
  function LeaveSender(mem: seq<Word>, cur: nat, oldSp: int, sender: Word): (r: seq<Word>)
    ensures |r| == |mem|
  {
    Write(Write(Write(mem, SpSlot(cur), oldSp), oldSp, Read(mem, FpSlot(cur))), oldSp + 1, sender)
  }

  function SplitMemory(mem: seq<Word>, cur: nat, page: nat, total: nat): (r: seq<Word>)
    ensures |r| == |mem|
  {
    var curSp := Read(mem, SpSlot(cur));
    LeaveSender(MoveArguments(mem, page, curSp, total), cur, curSp + total - 2, Read(mem, curSp + 1))
  }

  /**
   * Moves the callee of a call that met the stack limit to a fresh segment: copies its arguments and the two
   * return addresses, plants the trap as the return address, and leaves the sender's frame and return
   * pointers in the old segment.
   */
  function NewStackSegment(m: Machine, cur: nat, descriptor: nat): Machine {
    var total := ArgumentWords(descriptor) + 2;
    var page := NextSegment(m);
    var a := CreateNewSegment(m);
    ReturnToSender(a.(mem := SplitMemory(a.mem, cur, page, total)), Read(a.mem, SpSlot(page)) - total - 1, 0)
  }

  function StackLimitTrap(m: Machine, descriptor: nat): Machine
    requires m.sp >= 0
  {
    NewStackSegment(SaveRegisters(m), PageOf(m.sp), descriptor)
  }

  /** Goes back to the segment below, where the sender's pointers were left. */
  function PopStackSegment(m: Machine, value: Word): Machine
    requires |m.segments| >= 2
  {
    var previous := m.segments[|m.segments| - 2];
    ReturnToSender(PopSegment(m), Read(m.mem, SpSlot(previous)), value)
  }

  /** The trap hands the result of the callee on to the sender. */
  function PopSegmentTrap(m: Machine): Machine
    requires |m.segments| >= 2
  {
    PopStackSegment(SaveRegisters(m), m.result)
  }

  /** C code leaves its stack pointers and return address in the thread data and enters compiled code. */
  function SwitchToSmalltalk(m: Machine, page: nat, cSp: int, cFp: Word, back: Word, entry: Word): Machine {
    var data := Read(m.mem, ThreadSlot(page));
    var mem := Write(Write(Write(m.mem, data, cSp), data + 1, cFp), data + 2, back);
    m.(mem := mem, sp := Read(mem, SpSlot(page)), fp := Read(mem, FpSlot(page)), pc := entry)
  }

  /** Compiled code saves its registers and takes the C ones from the thread data. */
  function ReturnToC(m: Machine): Machine {
    var data := Read(m.mem, PAGE_WORDS * PageOf(m.sp) + PAGE_WORDS - 6);
    var s := SaveRegisters(m);
    s.(sp := Read(s.mem, data), fp := Read(s.mem, data + 1), pc := Read(s.mem, data + 2))
  }

  /**
   * What compiled code does to the stack.  A call finds its arguments pushed; the callee pops them, and leaves
   * its value in the result register.
   */
  datatype Op =
    | Push(word: Word)
    | Pop
    | Store(k: nat, word: Word)
    | Call(descriptor: nat, ret: Word, body: Word, split: bool)
    | Return(arguments: nat, value: Word)

  function PushWord(m: Machine, w: Word): Machine {
    m.(mem := Write(m.mem, m.sp - 1, w), sp := m.sp - 1)
  }

  /** The prologue of a method: the frame starts at the saved frame pointer. */
  function Enter(m: Machine): Machine {
    PushWord(m, m.fp).(fp := m.sp - 1)
  }

  /** The epilogue of a method, up to the jump to the return address. */
  function Leave(m: Machine, arguments: nat, value: Word): Machine {
    m.(fp := Read(m.mem, m.fp), pc := Read(m.mem, m.fp + 1), sp := m.fp + 2 + arguments, result := value)
  }

  function DirectCall(m: Machine, ret: Word, body: Word): Machine {
    Enter(PushWord(m, ret).(pc := body))
  }

  /** The callee finds no room, so it calls the trap, which resumes it in a segment of its own. */
  function SplitCall(m: Machine, descriptor: nat, ret: Word, body: Word): Machine
    requires m.sp >= 2
  {
    Enter(StackLimitTrap(PushWord(PushWord(m, ret), body), descriptor))
  }

  function Step(m: Machine, op: Op): Machine {
    match op
    case Push(w) => PushWord(m, w)
    case Pop => m.(sp := m.sp + 1)
    case Store(k, w) => m.(mem := Write(m.mem, m.sp + k, w))
    case Call(d, ret, body, split) =>
      if split && m.sp >= 2 then SplitCall(m, d, ret, body) else DirectCall(m, ret, body)
    case Return(n, value) =>
      var left := Leave(m, n, value);
      if left.pc == POP_TRAP && |left.segments| >= 2 then PopSegmentTrap(left) else left
  }

  /**
   * The activations on the stack, innermost first, each with what it owns: its locals from the stack pointer
   * up, its arguments, and where its sender stands.  A split activation was moved to a segment of its own.
   * The first segment holds the data of the thread above everything else.
   */
  datatype Stack =
    | Root(page: nat, base: nat, rootFp: Word, data: seq<Word>, locals: seq<Word>)
    | Activation(caller: Stack, callerSp: int, callerFp: Word, ret: Word, arguments: seq<Word>,
                 page: nat, split: bool, locals: seq<Word>)

  function Segments(st: Stack): seq<nat> {
    match st
    case Root(page, _, _, _, _) => [page]
    case Activation(caller, _, _, _, _, page, split, _) =>
      if split then Segments(caller) + [page] else Segments(caller)
  }

  /** The n words at address a are ws. */
  ghost predicate Holds(mem: seq<Word>, a: int, ws: seq<Word>) {
    forall k :: 0 <= k < |ws| ==> Read(mem, a + k) == ws[k]
  }

  /** The memory shows these activations, for this stack and frame pointer. */
  ghost predicate Laid(mem: seq<Word>, st: Stack, sp: int, fp: Word) {
    && PAGE_WORDS * st.page <= sp && Top(st.page) + HEADER_WORDS <= |mem|
    && Holds(mem, sp, st.locals)
    && match st {
         case Root(page, base, rootFp, data, locals) =>
           && sp + |locals| == base <= ThreadBase(page) && fp == rootFp
           && |data| == THREAD_DATA_WORDS && Holds(mem, ThreadBase(page), data)
         case Activation(caller, callerSp, callerFp, ret, arguments, page, split, locals) =>
           && sp + |locals| == fp
           && arguments != [] && fp + 2 + |arguments| <= Top(page)
           && Holds(mem, fp + 2, arguments)
           && ret != POP_TRAP
           && if split then
                && fp + 2 + |arguments| == Top(page)
                && Read(mem, fp + 1) == POP_TRAP
                && page !in Segments(caller) && PAGE_WORDS * caller.page <= callerSp - 2
                && Read(mem, SpSlot(caller.page)) == callerSp - 2
                && Read(mem, callerSp - 2) == callerFp && Read(mem, callerSp - 1) == ret
                && Laid(mem, caller, callerSp, callerFp)
              else
                && page == caller.page
                && Read(mem, fp) == callerFp && Read(mem, fp + 1) == ret
                && fp + 2 + |arguments| == callerSp
                && Laid(mem, caller, callerSp, callerFp)
       }
  }

  /** Nothing of what an activation and its senders own changes between two memories. */
  ghost predicate Agree(mem: seq<Word>, mem': seq<Word>, st: Stack, sp: int) {
    && |mem| == |mem'|
    && (forall a :: sp <= a < Top(st.page) ==> Read(mem', a) == Read(mem, a))
    && (forall p, a :: p in Segments(st) && p != st.page && On(p, a) ==> Read(mem', a) == Read(mem, a))
  }

  lemma {:induction false} LaidFrame(mem: seq<Word>, mem': seq<Word>, st: Stack, sp: int, fp: Word)
    requires Laid(mem, st, sp, fp) && Agree(mem, mem', st, sp)
    ensures Laid(mem', st, sp, fp)
  {
    if st.Activation? {
      var caller, callerSp := st.caller, st.callerSp;
      RunningIsLast(mem, caller, callerSp, st.callerFp);
      if st.split {
        InPage(mem, caller, callerSp, st.callerFp);
        assert forall a :: On(caller.page, a) ==> Read(mem', a) == Read(mem, a);
      }
      LaidFrame(mem, mem', caller, callerSp, st.callerFp);
    }
  }

  /** The stack pointer and the frame lie in the page of the activation. */
  lemma InPage(mem: seq<Word>, st: Stack, sp: int, fp: Word)
    requires Laid(mem, st, sp, fp)
    ensures PAGE_WORDS * st.page <= sp <= sp + |st.locals| <= Top(st.page)
    ensures Top(st.page) + HEADER_WORDS <= |mem|
    ensures PageOf(sp) == st.page
  {
  }

  /** The running segment is the last one. */
  lemma {:induction false} RunningIsLast(mem: seq<Word>, st: Stack, sp: int, fp: Word)
    requires Laid(mem, st, sp, fp)
    ensures Segments(st) != [] && Segments(st)[|Segments(st)| - 1] == st.page && st.page in Segments(st)
  {
    if st.Activation? && !st.split {
      RunningIsLast(mem, st.caller, st.callerSp, st.callerFp);
    }
  }
}
