/** The execution stack as the runtime keeps it: a pool, a free list, the thread's segments, and the traps. */
module ExecutionStacks {
  import opened SegmentMachines
  import opened SegmentSimulation
  import opened SegmentRuns
  import opened SegmentThreads
  import opened LinkedLists
  import opened StackHeaps
  import Bits

  /** The address space of the execution stacks, 64 MB. */
  const CAPACITY: nat := 0x400_0000

  /** The segment a list node is the header part of. */
  function PageOfNode(node: Node): nat { node.address / PAGE_WORDS }

  /** A node is at the place of the links in the header of its segment. */
  predicate IsLinks(node: Node) { node.address == LinksOf(PageOfNode(node)) }

  ghost function Pages(nodes: seq<Node>): (r: seq<nat>)
    ensures |r| == |nodes| && forall i :: 0 <= i < |r| ==> r[i] == PageOfNode(nodes[i])
  {
    seq(|nodes|, i requires 0 <= i < |nodes| => PageOfNode(nodes[i]))
  }

  lemma PagesOfRest(nodes: seq<Node>)
    requires nodes != []
    ensures Pages(nodes[1..]) == Pages(nodes)[1..] && Pages(nodes) != [] && Pages(nodes)[0] == PageOfNode(nodes[0])
  {
  }

  lemma PagesOfMore(nodes: seq<Node>, node: Node)
    ensures Pages(nodes + [node]) == Pages(nodes) + [PageOfNode(node)]
  {
  }

  lemma PageArithmetic(page: nat)
    ensures LinksOf(page) / PAGE_WORDS == page
  {
  }

  lemma NothingCarved(mem: seq<Word>, start: nat)
    requires 0 < start && PAGE_WORDS * start <= |mem|
    ensures Conserved(mem, [], [], start, 0, 0)
  {
  }

  lemma DropFirst<T>(s: seq<T>)
    requires s != []
    ensures s[..0] + s[1..] == s[1..]
  {
  }

  /** Two proper lists that share no node. */
  ghost predicate Apart(list: LinkedList, other: LinkedList)
    reads list, list.nodes, other, other.nodes
  {
    list != other && list.Valid() && other.Valid() && forall n :: n in list.nodes ==> n !in other.nodes
  }

  method Unlink(list: LinkedList, ghost other: LinkedList, node: Node, ghost i: nat)
    requires Apart(list, other) && i < |list.nodes| && list.nodes[i] == node
    modifies list, list.nodes
    ensures Apart(list, other) && other.nodes == old(other.nodes)
    ensures list.nodes == old(list.nodes[..i]) + old(list.nodes[i + 1..])
    ensures node !in list.nodes && node !in other.nodes
  {
    ghost var s := list.nodes;
    assert if i > 0 then node.previous == s[i - 1] && s[i - 1] in s else node.previous == null;
    assert if i + 1 < |s| then node.next == s[i + 1] && s[i + 1] in s else node.next == null;
    list.RemoveNode(node, i);
  }

  method Link(list: LinkedList, ghost other: LinkedList, node: Node)
    requires Apart(list, other) && node !in list.nodes && node !in other.nodes
    modifies list, list.nodes, node
    ensures Apart(list, other) && other.nodes == old(other.nodes)
    ensures list.nodes == old(list.nodes) + [node]
  {
    assert list.last != null ==> list.last in list.nodes;
    list.AddNode(node);
  }

  class ExecutionStack {
    const memory: array<Word>
    const pool: StackHeap
    const freeList: LinkedList
    const segmentList: LinkedList
    var thread: Word
    var sp: int
    var fp: Word
    var pc: Word
    var result: Word

    ghost function State(): Machine
      reads this, memory, pool, freeList, segmentList
    {
      Machine(memory[..], sp, fp, pc, result, Pages(segmentList.nodes), Pages(freeList.nodes),
              pool.start / PAGE_SIZE, pool.size / PAGE_SIZE, thread)
    }

    ghost predicate Linked()
      reads freeList, freeList.nodes, segmentList, segmentList.nodes
    {
      Apart(freeList, segmentList) && forall n :: n in freeList.nodes + segmentList.nodes ==> IsLinks(n)
    }

    ghost predicate Valid()
      reads this, memory, pool, freeList, freeList.nodes, segmentList, segmentList.nodes
    {
      Linked() && Pooled() && Sound(State())
    }

    /** The pool is carved in whole pages of the memory. */
    ghost predicate Pooled()
      reads pool
    {
      pool.Valid() && pool.size % PAGE_SIZE == 0 && 8 * memory.Length == pool.start + pool.capacity
    }

    /** The pool is address space for all segments; nothing is carved from it yet. */
    constructor (start: nat)
      requires 0 < start && start % PAGE_SIZE == 0
      ensures Valid() && fresh(memory) && fresh(pool) && fresh(freeList) && fresh(segmentList)
      ensures segmentList.nodes == [] && freeList.nodes == [] && pool.size == 0 && thread == 0
    {
      hide Conserved, LinkedList.Valid, StackHeap.Valid;
      pool := new StackHeap(start, CAPACITY);
      memory := new Word[(start + CAPACITY) / 8];
      freeList := new LinkedList();
      segmentList := new LinkedList();
      thread, sp, fp, pc, result := 0, 0, 0, 0, 0;
      new;
      assert Pages(segmentList.nodes) == [] && Pages(freeList.nodes) == [];
      NothingCarved(memory[..], start / PAGE_SIZE);
    }

    method WriteWord(a: int, w: Word)
      modifies memory
      ensures memory[..] == Write(old(memory[..]), a, w)
    {
      if 0 <= a < memory.Length {
        memory[a] := w;
      }
    }

    /** memcpy between stretches that do not overlap. */
    method CopyWords(dst: int, src: int, n: nat)
      requires 0 <= dst && dst + n <= memory.Length && 0 <= src && src + n <= memory.Length
      requires src + n <= dst || dst + n <= src
      modifies memory
      ensures memory[..] == Copy(old(memory[..]), dst, src, n)
    {
      for i := 0 to n
        invariant memory[..] == Copy(old(memory[..]), dst, src, i)
      {
        memory[dst + i] := memory[src + i];
      }
    }

    method ClearWords(dst: nat, n: nat)
      requires dst + n <= memory.Length
      modifies memory
      ensures memory[..] == Clear(old(memory[..]), dst, n)
    {
      for i := 0 to n
        invariant memory[..] == Clear(old(memory[..]), dst, i)
      {
        memory[dst + i] := 0;
      }
    }

    // ---- Allocation ----

    /** Takes a segment from the free list, or carves the next page from the pool. */
    method TakeSegment() returns (node: Node)
      requires Linked() && Pooled() && CanAllocate(State())
      modifies pool, freeList, freeList.nodes
      ensures Linked() && Pooled() && node !in segmentList.nodes && node !in freeList.nodes && IsLinks(node)
      ensures segmentList.nodes == old(segmentList.nodes)
      ensures freeList.nodes == if old(freeList.nodes) == [] then [] else old(freeList.nodes[1..])
      ensures fresh(node) || node in old(freeList.nodes)
      ensures pool.size == if old(freeList.nodes) == [] then old(pool.size) + PAGE_SIZE else old(pool.size)
      ensures PageOfNode(node) == NextSegment(old(State()))
    {
      hide StackHeap.Valid, IsLinks, PageOfNode;
      if freeList.first != null {
        node := freeList.first;
        assert node == freeList.nodes[0] && node in freeList.nodes;
        DropFirst(freeList.nodes);
        Unlink(freeList, segmentList, node, 0);
      } else {
        assert freeList.nodes == [];
        node := CarveSegment();
      }
    }

    method CarveSegment() returns (node: Node)
      requires Pooled() && PAGE_WORDS * (State().start + State().carved + 1) <= memory.Length
      modifies pool
      ensures Pooled() && fresh(node) && IsLinks(node) && pool.size == old(pool.size) + PAGE_SIZE
      ensures PageOfNode(node) == pool.start / PAGE_SIZE + old(pool.size) / PAGE_SIZE
    {
      hide StackHeap.Valid, Bits.AlignUp, Bits.Pow2;
      CarvedPage();
      var address := pool.Allocate(PAGE_SIZE, PAGE_SIZE, 12);
      node := new Node(LinksOf(address / 8 / PAGE_WORDS));
      PageArithmetic(address / 8 / PAGE_WORDS);
    }

    /** The pool is page aligned, so the next page starts where it ends. */
    lemma CarvedPage()
      requires Pooled() && PAGE_WORDS * (State().start + State().carved + 1) <= memory.Length
      ensures Bits.Pow2(12) == PAGE_SIZE
      ensures Bits.AlignUp(pool.size, PAGE_SIZE) == pool.size && pool.size + PAGE_SIZE <= pool.capacity
      ensures (pool.start + pool.size) / 8 / PAGE_WORDS == pool.start / PAGE_SIZE + pool.size / PAGE_SIZE
    {
      Bits.Pow2Values();
      Bits.AlignUpIsLeast(pool.size, PAGE_SIZE, 12);
    }

    /** Takes a segment and resets its header. */
    method AllocateSegment() returns (node: Node)
      requires Valid() && CanAllocate(State())
      modifies memory, pool, freeList, freeList.nodes
      ensures Linked() && Pooled() && node !in segmentList.nodes && node !in freeList.nodes && IsLinks(node)
      ensures fresh(node) || node in old(freeList.nodes)
      ensures PageOfNode(node) == NextSegment(old(State()))
      ensures segmentList.nodes == old(segmentList.nodes)
      ensures State() == SegmentMachines.AllocateSegment(old(State()))
    {
      hide Conserved, Write, Read, Clear, LinkedList.Valid, StackHeap.Valid;
      NextSegmentIsFresh(State());
      ghost var s := freeList.nodes;
      if s != [] {
        PagesOfRest(s);
      }
      node := TakeSegment();
      var page := PageOfNode(node);
      ClearWords(Top(page), HEADER_WORDS);
      WriteWord(SpSlot(page), Top(page));
      assert s == [] ==> Pages(freeList.nodes) == [];
    }

    method CreateNewSegment() returns (node: Node)
      requires Valid() && CanAllocate(State()) && segmentList.nodes != []
      modifies memory, pool, freeList, freeList.nodes, segmentList, segmentList.nodes
      ensures Linked() && Pooled() && segmentList.nodes == old(segmentList.nodes) + [node]
      ensures PageOfNode(node) == NextSegment(old(State()))
      ensures State() == SegmentMachines.CreateNewSegment(old(State()))
    {
      hide Conserved, Write, Read, Clear, Pooled, LinkedList.Valid, StackHeap.Valid;
      node := AllocateSegment();
      PagesOfMore(segmentList.nodes, node);
      WriteWord(ThreadSlot(PageOfNode(node)), thread);
      Link(segmentList, freeList, node);
    }

    /** Hands the last segment of the thread to the free list. */
    method PopSegment(node: Node)
      requires Valid() && segmentList.nodes != [] && segmentList.nodes[|segmentList.nodes| - 1] == node
      modifies `thread, freeList, freeList.nodes, segmentList, segmentList.nodes
      ensures Valid() && segmentList.nodes == old(segmentList.nodes[..|segmentList.nodes| - 1])
      ensures State() == SegmentMachines.PopSegment(old(State()))
    {
      hide Conserved, Pooled, IsLinks, PageOfNode, LinkedList.Valid;
      ConservedPop(State());
      ghost var s, n := segmentList.nodes, |segmentList.nodes| - 1;
      Unlink(segmentList, freeList, node, n);
      assert s[..n] + s[n + 1..] == s[..n];
      segmentList.Ends();
      if segmentList.first == null {
        thread := 0;
      }
      PagesOfMore(freeList.nodes, node);
      Link(freeList, segmentList, node);
      assert Pages(segmentList.nodes) == Pages(s)[..n];
    }

    // ---- The traps ----

    method ReadWord(a: int) returns (w: Word)
      ensures w == Read(memory[..], a)
    {
      w := if 0 <= a < memory.Length then memory[a] else 0;
    }

    method SaveRegisters()
      modifies memory
      ensures State() == SegmentMachines.SaveRegisters(old(State()))
    {
      var end := PAGE_WORDS * PageOf(sp) + PAGE_WORDS;
      hide Write;
      WriteWord(end - 3, sp);
      WriteWord(end - 4, fp);
    }

    method ReturnToSender(stackPointer: int, returnValue: Word)
      modifies `sp, `fp, `pc, `result
      ensures State() == SegmentMachines.ReturnToSender(old(State()), stackPointer, returnValue)
    {
      result := returnValue;
      fp := ReadWord(stackPointer);
      pc := ReadWord(stackPointer + 1);
      sp := stackPointer + 2;
    }

    /** Moves n arguments and the callee's return addresses from curSp to a new segment and plants the trap. */
    method MoveArguments(page: nat, curSp: int, n: nat) returns (stackPointer: int, sender: Word)
      requires CanMove(memory[..], page, curSp, n) && curSp + n + 2 <= memory.Length
      modifies memory
      ensures memory[..] == SegmentMachines.MoveArguments(old(memory[..]), page, curSp, n + 2)
      ensures stackPointer == Read(old(memory[..]), SpSlot(page)) - (n + 2) - 1
      ensures sender == Read(old(memory[..]), curSp + 1)
    {
      hide Copy, Write, Read, CanMove;
      CopiedSender(memory[..], page, curSp, n);
      var newSp := ReadWord(SpSlot(page));
      newSp := newSp - (n + 2);
      CopyWords(newSp, curSp, n + 2);
      stackPointer := newSp - 1;
      WriteWord(SpSlot(page), stackPointer);
      sender := ReadWord(stackPointer + 2);
      WriteWord(stackPointer + 2, POP_TRAP);
      var bottom := ReadWord(FpSlot(page));
      WriteWord(stackPointer, bottom);
    }

    lemma CopiedSender(mem: seq<Word>, page: nat, curSp: int, n: nat)
      requires CanMove(mem, page, curSp, n)
      ensures var newSp := Top(page) - (n + 2);
              var copied := Write(Copy(mem, newSp, curSp, n + 2), SpSlot(page), newSp - 1);
              && 0 <= newSp <= newSp + n + 2 <= |mem| && 0 <= curSp
              && (curSp + n + 2 <= newSp || newSp + n + 2 <= curSp)
              && Read(mem, SpSlot(page)) == Top(page)
              && Read(copied, newSp + 1) == Read(mem, curSp + 1)
              && Read(Write(copied, newSp + 1, POP_TRAP), FpSlot(page))
              == Read(Copy(mem, newSp, curSp, n + 2), FpSlot(page))
    {
    }

    method LeaveSender(cur: nat, oldSp: int, sender: Word)
      modifies memory
      ensures memory[..] == SegmentMachines.LeaveSender(old(memory[..]), cur, oldSp, sender)
    {
      WriteWord(SpSlot(cur), oldSp);
      var frame := ReadWord(FpSlot(cur));
      WriteWord(oldSp, frame);
      WriteWord(oldSp + 1, sender);
    }

    /** Given the end of the running segment and the descriptor of the arguments of the callee that overflowed. */
    method NewStackSegment(currentStackHead: nat, descriptor: nat, ghost cur: nat)
      requires Valid() && CanAllocate(State())
      requires currentStackHead == PAGE_WORDS * cur + PAGE_WORDS && cur in State().segments
      requires ArgumentWords(descriptor) + 3 <= PAGE_WORDS - HEADER_WORDS
      requires var curSp := Read(memory[..], SpSlot(cur));
               PAGE_WORDS * cur <= curSp && curSp + ArgumentWords(descriptor) + 2 <= Top(cur)
      modifies `sp, `fp, `pc, `result, memory, pool, freeList, freeList.nodes, segmentList, segmentList.nodes
      ensures Valid()
      ensures State() == SegmentMachines.NewStackSegment(old(State()), cur, descriptor)
    {
      hide Conserved, Write, Read, CanMove, Pooled, Linked, LinkedList.Valid, StackHeap.Valid;
      hide SegmentMachines.CreateNewSegment, SplitMemory, SegmentMachines.ReturnToSender;
      SplitIsPossible(State(), cur, descriptor);
      var node := CreateNewSegment();
      MoveCallee(PageOfNode(node), currentStackHead / PAGE_WORDS - 1, ArgumentWords(descriptor));
    }

    /** The rest of a split, once the new segment stands last in the thread. */
    method MoveCallee(page: nat, current: nat, n: nat)
      requires var curSp := Read(memory[..], SpSlot(current));
               CanMove(memory[..], page, curSp, n) && curSp + n + 2 <= memory.Length
      modifies `sp, `fp, `pc, `result, memory
      ensures var m := old(State());
              State() == SegmentMachines.ReturnToSender(m.(mem := SplitMemory(m.mem, current, page, n + 2)),
                                                        Read(m.mem, SpSlot(page)) - (n + 2) - 1, 0)
    {
      hide Write, Read, CanMove, SegmentMachines.MoveArguments, SegmentMachines.LeaveSender;
      var curSp := ReadWord(SpSlot(current));
      var stackPointer, sender := MoveArguments(page, curSp, n);
      LeaveSender(current, curSp + (n + 2) - 2, sender);
      ReturnToSender(stackPointer, 0);
    }

    lemma SplitIsPossible(m: Machine, cur: nat, d: nat)
      requires Sound(m) && CanAllocate(m) && cur in m.segments
      requires ArgumentWords(d) + 3 <= PAGE_WORDS - HEADER_WORDS
      requires var curSp := Read(m.mem, SpSlot(cur));
               PAGE_WORDS * cur <= curSp && curSp + ArgumentWords(d) + 2 <= Top(cur)
      ensures var a, curSp := SegmentMachines.CreateNewSegment(m), Read(m.mem, SpSlot(cur));
              && Read(a.mem, SpSlot(cur)) == curSp && |a.mem| == |m.mem| && curSp + ArgumentWords(d) + 2 <= |m.mem|
              && CanMove(a.mem, NextSegment(m), curSp, ArgumentWords(d))
      ensures Sound(SegmentMachines.NewStackSegment(m, cur, d))
    {
      LivePages(m, cur);
      NextSegmentIsFresh(m);
      SoundNewSegment(m, cur, d, Read(m.mem, SpSlot(cur)));
      hide Conserved, SegmentMachines.NewStackSegment;
      NewSegmentTop(m);
      CreatedElsewhere(m, cur);
    }

    lemma CreatedElsewhere(m: Machine, cur: nat)
      requires Top(NextSegment(m)) + HEADER_WORDS <= |m.mem| && cur != NextSegment(m)
      ensures Read(SegmentMachines.CreateNewSegment(m).mem, SpSlot(cur)) == Read(m.mem, SpSlot(cur))
      ensures |SegmentMachines.CreateNewSegment(m).mem| == |m.mem|
    {
      CreatedSegment(m);
      assert !On(NextSegment(m), SpSlot(cur));
    }

    /** Given the links in the header of the running segment, which leads to the segment before it. */
    method PopStackSegment(node: Node, returnValue: Word)
      requires Valid() && |segmentList.nodes| >= 2 && segmentList.nodes[|segmentList.nodes| - 1] == node
      modifies `sp, `fp, `pc, `result, `thread, freeList, freeList.nodes, segmentList, segmentList.nodes
      ensures Valid() && State() == SegmentMachines.PopStackSegment(old(State()), returnValue)
    {
      hide Conserved, Pooled, Read;
      ghost var s := segmentList.nodes;
      assert node.previous == s[|s| - 2];
      var previous := PageOfNode(node.previous);
      PopSegment(node);
      var stackPointer := ReadWord(SpSlot(previous));
      ReturnToSender(stackPointer, returnValue);
    }

    /** The registers saved in the header of a live segment lose no segment. */
    lemma SavedRegistersAreSound(m: Machine, page: nat)
      requires Sound(m) && PageOf(m.sp) == page && page in m.segments
      ensures Sound(SegmentMachines.SaveRegisters(m))
      ensures Read(SegmentMachines.SaveRegisters(m).mem, SpSlot(page)) == m.sp
    {
      LivePages(m, page);
      assert Read(SegmentMachines.SaveRegisters(m).mem, SpSlot(page)) == m.sp;
      hide Conserved, Write, Read;
      ConservedWrite(m, page, SpSlot(page), m.sp);
      var saved := m.(mem := Write(m.mem, SpSlot(page), m.sp));
      ConservedWrite(saved, page, FpSlot(page), m.fp);
    }

    /** A call met the limit of the running segment. */
    method StackLimitTrap(descriptor: nat)
      requires Valid() && CanAllocate(State()) && sp >= 0 && PageOf(sp) in State().segments
      requires var n := ArgumentWords(descriptor);
               n + 3 <= PAGE_WORDS - HEADER_WORDS && sp + n + 2 <= Top(PageOf(sp))
      modifies `sp, `fp, `pc, `result, memory, pool, freeList, freeList.nodes, segmentList, segmentList.nodes
      ensures Valid()
      ensures State() == SegmentMachines.StackLimitTrap(old(State()), descriptor)
    {
      hide Conserved, Write, Read, SegmentMachines.NewStackSegment, SegmentMachines.SaveRegisters;
      SavedRegistersAreSound(State(), PageOf(sp));
      var end := PAGE_WORDS * PageOf(sp) + PAGE_WORDS;
      SaveRegisters();
      NewStackSegment(end, descriptor, PageOf(sp));
    }

    /** The callee of a split call has returned; its segment is the last one. */
    method PopSegmentTrap(node: Node)
      requires Valid() && |segmentList.nodes| >= 2 && segmentList.nodes[|segmentList.nodes| - 1] == node
      requires PageOf(sp) == PageOfNode(node)
      modifies `sp, `fp, `pc, `result, `thread, memory, freeList, freeList.nodes, segmentList, segmentList.nodes
      ensures Valid()
      ensures State() == SegmentMachines.PopSegmentTrap(old(State()))
    {
      hide Conserved, Write, Read, SegmentMachines.SaveRegisters;
      SavedRegistersAreSound(State(), PageOf(sp));
      SaveRegisters();
      PopStackSegment(node, result);
    }

    // ---- Entering and leaving compiled code ----

    /**
     * The address of the segment to run compiled code on.  A live segment is answered by its list node, without
     * going back from the links to the header they are part of.
     */
    method GetValidSegment() returns (segment: nat)
      requires Valid() && (segmentList.nodes == [] ==> CanAllocate(State()))
      modifies `thread, memory, pool, freeList, freeList.nodes, segmentList, segmentList.nodes
      ensures Valid() && segment == ValidSegment(old(State()))
      ensures State() == if old(segmentList.nodes) == [] then StartThread(old(State())) else old(State())
    {
      hide Conserved, LinkedList.Valid, Pooled;
      segmentList.Ends();
      if segmentList.last != null {
        assert segmentList.last in freeList.nodes + segmentList.nodes;
        return segmentList.last.address;
      }
      segment := FirstSegment();
    }

    method FirstSegment() returns (segment: nat)
      requires Valid() && CanAllocate(State()) && segmentList.nodes == []
      modifies `thread, memory, pool, freeList, freeList.nodes, segmentList, segmentList.nodes
      ensures Valid() && segment == Top(NextSegment(old(State())))
      ensures State() == StartThread(old(State()))
    {
      hide Conserved, Write, Read, Clear, LinkedList.Valid, StackHeap.Valid, SegmentMachines.AllocateSegment, IsLinks;
      ghost var m := State();
      StartedThread(m);
      FreshHeader(m);
      var node := AllocateSegment();
      var page := PageOfNode(node);
      PlaceThreadData(page);
      Link(segmentList, freeList, node);
      assert Pages(segmentList.nodes) == [page];
      return Top(page);
    }

    lemma FreshHeader(m: Machine)
      requires Top(NextSegment(m)) + HEADER_WORDS <= |m.mem|
      ensures var a := SegmentMachines.AllocateSegment(m);
              && Read(a.mem, SpSlot(NextSegment(m))) == Top(NextSegment(m)) && |a.mem| == |m.mem|
              && a == m.(mem := a.mem, free := a.free, carved := a.carved)
    {
    }

    /** The first segment of a thread also holds its data, cleared, right below the header. */
    method PlaceThreadData(page: nat)
      requires Top(page) + HEADER_WORDS <= memory.Length && Read(memory[..], SpSlot(page)) == Top(page)
      modifies `thread, memory
      ensures thread == ThreadBase(page)
      ensures var base := ThreadBase(page);
              memory[..] == Clear(Write(Write(old(memory[..]), SpSlot(page), base), ThreadSlot(page), base),
                                  base, THREAD_DATA_WORDS)
    {
      hide Write, Read, Clear;
      var stackPointer := ReadWord(SpSlot(page));
      stackPointer := stackPointer - THREAD_DATA_WORDS;
      WriteWord(SpSlot(page), stackPointer);
      thread := stackPointer;
      WriteWord(ThreadSlot(page), thread);
      ClearWords(stackPointer, THREAD_DATA_WORDS);
    }

    /** Given the end of a segment. */
    method SwitchToSmalltalk(end: nat, cSp: int, cFp: Word, back: Word, entry: Word, ghost page: nat)
      requires end == PAGE_WORDS * page + PAGE_WORDS
      modifies `sp, `fp, `pc, memory
      ensures State() == SegmentMachines.SwitchToSmalltalk(old(State()), page, cSp, cFp, back, entry)
    {
      hide Write, Read;
      var data := ReadWord(end - 6);
      WriteWord(data, cSp);
      WriteWord(data + 1, cFp);
      WriteWord(data + 2, back);
      sp := ReadWord(end - 3);
      fp := ReadWord(end - 4);
      pc := entry;
    }

    method ReturnToC()
      modifies `sp, `fp, `pc, memory
      ensures State() == SegmentMachines.ReturnToC(old(State()))
    {
      hide Write, Read;
      var data := ReadWord(PAGE_WORDS * PageOf(sp) + PAGE_WORDS - 6);
      SaveRegisters();
      sp := ReadWord(data);
      fp := ReadWord(data + 1);
      pc := ReadWord(data + 2);
    }
  }
}
