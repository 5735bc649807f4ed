/** The object heap: objects one after the other, each behind a preheader, and the walker that finds them again. */
module SpurHeaps {
  import opened ObjectSizes
  import opened Oops
  import opened StackHeaps
  import Bits

  type Word = nat

  /** The header word: class index, format, identity hash and slot count from the low bits up. */
  function MakeHeader(classIndex: nat, format: nat, identityHash: nat, slotCount: nat): Word {
    classIndex + format * 0x100_0000 + identityHash * 0x1_0000_0000 + slotCount * 0x100_0000_0000_0000
  }

  function ClassIndexOf(header: Word): nat { header % 0x40_0000 }
  function FormatOf(header: Word): nat { header / 0x100_0000 % 32 }
  function IdentityHashOf(header: Word): nat { header / 0x1_0000_0000 % 0x40_0000 }
  function SlotCountOf(header: Word): nat { header / 0x100_0000_0000_0000 }

  lemma HeaderFields(classIndex: nat, format: nat, identityHash: nat, slotCount: nat)
    requires classIndex < 0x40_0000 && format < 32 && identityHash < 0x40_0000
    ensures var h := MakeHeader(classIndex, format, identityHash, slotCount);
            && ClassIndexOf(h) == classIndex && FormatOf(h) == format
            && IdentityHashOf(h) == identityHash && SlotCountOf(h) == slotCount
  {
    var h := MakeHeader(classIndex, format, identityHash, slotCount);
    var low := classIndex + format * 0x100_0000;
    Bits.DivModUnique(h, 0x100_0000_0000_0000, slotCount, low + identityHash * 0x1_0000_0000);
    var upper := identityHash * 0x100 + slotCount * 0x1_0000_0000;
    Bits.DivModUnique(h, 0x100_0000, format + upper, classIndex);
    Bits.SameRemainder(format + upper, format, 32, upper / 32);
    Bits.ModSmall(format, 32);
    Bits.SameRemainder(h, classIndex, 0x40_0000, format * 4 + upper * 4);
    Bits.ModSmall(classIndex, 0x40_0000);
    Bits.DivModUnique(h, 0x1_0000_0000, identityHash + slotCount * 0x100_0000, low);
    Bits.SameRemainder(identityHash + slotCount * 0x100_0000, identityHash, 0x40_0000, slotCount * 4);
    Bits.ModSmall(identityHash, 0x40_0000);
  }

  /** An object in a heap of words: where its preheader and its header are, and how many slots follow. */
  datatype Record = Record(at: nat, header: nat, oopSlots: nat, slots: nat)

  function End(r: Record): nat { r.header + 1 + r.slots }

  /** Objects start at multiples of 16 bytes. */
  function EvenUp(n: nat): nat { n + n % 2 }

  function NextAt(r: Record): nat { EvenUp(End(r)) }

  lemma EvenUpIsEven(n: nat)
    ensures EvenUp(n) % 2 == 0 && n <= EvenUp(n) <= n + 1
  {
  }

  /** The words from the preheader to the header of a record say what the record says. */
  ghost predicate IsRecord(w: seq<Word>, r: Record) {
    && r.header < |w| && r.at % 2 == 0
    && (r.header == r.at + 1 || r.header == r.at + 3)
    && if r.header == r.at + 1 then
         w[r.at] % 2 == 0 && r.slots == r.oopSlots == SlotCountOf(w[r.header]) < BIG
       else
         && w[r.at] % 2 == 1 && SlotCountOf(w[r.header]) == BIG
         && (if FormatOf(w[r.header]) >= MIXED_OBJECT
             then r.oopSlots == w[r.at + 2] / 0x1_0000_0000 && r.slots == w[r.at + 2] % 0x1_0000_0000
             else r.oopSlots == r.slots == w[r.at + 2])
  }

  /** The records fill the first `size` words, in order, each right after the one before it. */
  ghost predicate Parsed(w: seq<Word>, rs: seq<Record>, size: nat) {
    if rs == [] then size == 0
    else
      var last, before := rs[|rs| - 1], rs[..|rs| - 1];
      && IsRecord(w, last) && size == End(last)
      && last.at == (if before == [] then 0 else NextAt(before[|before| - 1]))
      && (before == [] || Parsed(w, before, End(before[|before| - 1])))
  }

  lemma {:induction false} ParsedFrame(w: seq<Word>, w': seq<Word>, rs: seq<Record>, size: nat)
    requires Parsed(w, rs, size) && size <= |w| == |w'|
    requires forall i :: 0 <= i < size ==> w'[i] == w[i]
    ensures Parsed(w', rs, size)
  {
    if |rs| > 1 {
      var before := rs[..|rs| - 1];
      ParsedFrame(w, w', before, End(before[|before| - 1]));
    }
  }

  /** Each record of a parsed heap is a record, ends before the next one starts, and the first starts at 0. */
  lemma {:induction false} ParsedAt(w: seq<Word>, rs: seq<Record>, size: nat, i: nat)
    requires Parsed(w, rs, size) && i < |rs|
    ensures IsRecord(w, rs[i]) && End(rs[i]) <= size
    ensures i + 1 < |rs| ==> rs[i + 1].at == NextAt(rs[i])
    ensures i + 1 == |rs| ==> size == End(rs[i])
    ensures rs[0].at == 0
  {
    var n := |rs| - 1;
    if n > 0 {
      var before := rs[..n];
      if i < n {
        ParsedAt(w, before, End(before[n - 1]), i);
      } else {
        ParsedAt(w, before, End(before[n - 1]), 0);
      }
    }
  }

  lemma ParsedAppend(w: seq<Word>, w': seq<Word>, rs: seq<Record>, size: nat, r: Record)
    requires Parsed(w, rs, size) && size <= |w| == |w'| && IsRecord(w', r)
    requires forall i :: 0 <= i < size ==> w'[i] == w[i]
    requires r.at == EvenUp(size)
    ensures Parsed(w', rs + [r], End(r))
  {
    assert EvenUp(0) == 0;
    hide IsRecord, EvenUp;
    ParsedFrame(w, w', rs, size);
    assert (rs + [r])[..|rs|] == rs;
  }

  function PreheaderWords(slots: nat): nat { if slots >= BIG then 3 else 1 }

  /**
   * The pointer slots the walker sees in an object that was not made as a mixed one: all slots, but the padding of
   * 32-bit elements may make a big object look mixed, and then there are none.
   */
  function SeenOopSlots(s: Sized, slots: nat): nat {
    if slots >= BIG && s.objectFormat >= MIXED_OBJECT then 0 else slots
  }

  /** The words a new object that is not mixed starts with make it a record. */
  lemma NewRecord(w: seq<Word>, header: nat, classIndex: nat, s: Sized, identityHash: nat, slots: nat)
    requires PreheaderWords(slots) <= header < |w| && (header - PreheaderWords(slots)) % 2 == 0
    requires slots < 0x1_0000_0000 && classIndex < 0x40_0000 && s.objectFormat < 32 && identityHash < 0x40_0000
    requires s.slotCount == if slots >= BIG then BIG else slots
    requires w[header] == MakeHeader(classIndex, s.objectFormat, identityHash, s.slotCount)
    requires var at := header - PreheaderWords(slots);
             if slots >= BIG then w[at] == 1 && w[at + 2] == slots else w[at] == 0
    ensures IsRecord(w, Record(header - PreheaderWords(slots), header, SeenOopSlots(s, slots), slots))
    ensures ClassIndexOf(w[header]) == classIndex && FormatOf(w[header]) == s.objectFormat
    ensures IdentityHashOf(w[header]) == identityHash && SlotCountOf(w[header]) == s.slotCount
  {
    HeaderFields(classIndex, s.objectFormat, identityHash, s.slotCount);
    Bits.ModSmall(slots, 0x1_0000_0000);
  }

  lemma NewMixedRecord(w: seq<Word>, header: nat, classIndex: nat, s: Sized, identityHash: nat,
                       oopSlots: nat, slots: nat)
    requires 3 <= header < |w| && (header - 3) % 2 == 0 && slots < 0x1_0000_0000
    requires classIndex < 0x40_0000 && MIXED_OBJECT <= s.objectFormat < 32 && identityHash < 0x40_0000
    requires w[header] == MakeHeader(classIndex, s.objectFormat, identityHash, BIG)
    requires w[header - 3] == 1 && w[header - 1] == slots + oopSlots * 0x1_0000_0000
    ensures IsRecord(w, Record(header - 3, header, oopSlots, slots))
    ensures ClassIndexOf(w[header]) == classIndex && FormatOf(w[header]) == s.objectFormat
    ensures IdentityHashOf(w[header]) == identityHash && SlotCountOf(w[header]) == BIG
  {
    HeaderFields(classIndex, s.objectFormat, identityHash, BIG);
    Unpack(slots, oopSlots);
  }

  /** The parts of the object at a header that tell its size. */
  function SizedAt(w: seq<Word>, header: nat): Sized
    requires 0 < header < |w|
  {
    Sized(FormatOf(w[header]), SlotCountOf(w[header]), w[header - 1])
  }

  function MixedSlots(fixedSlots: nat, n: nat, nativeSize: nat): nat {
    fixedSlots + (n * OOP_SIZE + nativeSize + OOP_SIZE - 1) / OOP_SIZE
  }

  lemma SizedBasicNew(format: nat, fixedSlots: nat, n: nat)
    requires IsClassFormat(format)
    ensures var s, slots := ObjectSizes.BasicNew(format, fixedSlots, n), fixedSlots + ExtraSlots(format, n);
            && s.objectFormat < 32
            && s.slotCount == (if slots >= BIG then BIG else slots)
            && s.preheader == (if slots >= BIG then slots else 0)
  {
  }

  lemma SizedBasicNewMixed(fixedSlots: nat, n: nat, nativeSize: nat)
    requires fixedSlots + n + nativeSize < 0x1_0000_0000
    ensures var s := ObjectSizes.BasicNewMixed(MIXED_OBJECT, fixedSlots, n, nativeSize);
            var slots := MixedSlots(fixedSlots, n, nativeSize);
            && MIXED_OBJECT <= s.objectFormat < 32 && s.slotCount == BIG
            && s.preheader == slots + (fixedSlots + n) * 0x1_0000_0000
            && fixedSlots + n <= slots < 0x1_0000_0000
  {
  }

  lemma NewObject(w0: seq<Word>, w: seq<Word>, rs: seq<Record>, size: nat,
                  header: nat, classIndex: nat, s: Sized, identityHash: nat, slots: nat)
    requires Parsed(w0, rs, size) && size <= |w0| == |w| && forall i :: 0 <= i < size ==> w[i] == w0[i]
    requires PreheaderWords(slots) <= header < |w| && header - PreheaderWords(slots) == EvenUp(size)
    requires slots < 0x1_0000_0000 && classIndex < 0x40_0000 && s.objectFormat < 32 && identityHash < 0x40_0000
    requires s.slotCount == (if slots >= BIG then BIG else slots) && s.preheader == if slots >= BIG then slots else 0
    requires w[header] == MakeHeader(classIndex, s.objectFormat, identityHash, s.slotCount)
    requires var at := header - PreheaderWords(slots);
             if slots >= BIG then w[at] == 1 && w[at + 2] == slots else w[at] == 0
    ensures var record := Record(header - PreheaderWords(slots), header, SeenOopSlots(s, slots), slots);
            Parsed(w, rs + [record], header + 1 + slots)
    ensures ClassIndexOf(w[header]) == classIndex && IdentityHashOf(w[header]) == identityHash
    ensures SizedAt(w, header) == s
  {
    EvenUpIsEven(size);
    NewRecord(w, header, classIndex, s, identityHash, slots);
    hide Parsed, IsRecord, MakeHeader, EvenUp;
    ParsedAppend(w0, w, rs, size, Record(header - PreheaderWords(slots), header, SeenOopSlots(s, slots), slots));
  }

  lemma NewMixedObject(w0: seq<Word>, w: seq<Word>, rs: seq<Record>, size: nat,
                       header: nat, classIndex: nat, s: Sized, identityHash: nat, oopSlots: nat, slots: nat)
    requires Parsed(w0, rs, size) && size <= |w0| == |w| && forall i :: 0 <= i < size ==> w[i] == w0[i]
    requires 3 <= header < |w| && header - 3 == EvenUp(size) && slots < 0x1_0000_0000
    requires classIndex < 0x40_0000 && MIXED_OBJECT <= s.objectFormat < 32 && identityHash < 0x40_0000
    requires s.slotCount == BIG && s.preheader == slots + oopSlots * 0x1_0000_0000
    requires w[header] == MakeHeader(classIndex, s.objectFormat, identityHash, BIG)
    requires w[header - 3] == 1 && w[header - 1] == s.preheader
    ensures Parsed(w, rs + [Record(header - 3, header, oopSlots, slots)], header + 1 + slots)
    ensures ClassIndexOf(w[header]) == classIndex && IdentityHashOf(w[header]) == identityHash
    ensures SizedAt(w, header) == s
  {
    EvenUpIsEven(size);
    NewMixedRecord(w, header, classIndex, s, identityHash, oopSlots, slots);
    hide Parsed, IsRecord, MakeHeader, EvenUp;
    ParsedAppend(w0, w, rs, size, Record(header - 3, header, oopSlots, slots));
  }

  /** No slot of one record is a preheader or header word of any record. */
  lemma SlotsAreFree(w: seq<Word>, rs: seq<Record>, size: nat, i: nat, a: nat, v: Word)
    requires Parsed(w, rs, size) && size <= |w| && i < |rs| && rs[i].header < a < End(rs[i])
    ensures a < |w| && Parsed(w[a := v], rs, size)
    decreases |rs|
  {
    ParsedAt(w, rs, size, i);
    var n := |rs| - 1;
    if i < n {
      var before := rs[..n];
      SlotsAreFree(w, before, End(before[n - 1]), i, a, v);
      ParsedAt(w, before, End(before[n - 1]), i);
    } else if n > 0 {
      var before := rs[..n];
      ParsedFrame(w, w[a := v], before, End(before[n - 1]));
    }
  }

  lemma NextMultiple(words: nat, up: nat, even: nat)
    requires up % 16 == 0 && 8 * words <= up < 8 * words + 16
    requires even % 2 == 0 && words <= even <= words + 1
    ensures up == 8 * even
  {
    assert up == 16 * (up / 16) && even == 2 * (even / 2);
  }

  /** Rounding a heap of whole words up to 16 bytes adds at most one word. */
  lemma AlignTo16(words: nat)
    requires 8 * words + 16 <= Bits.WORD64
    ensures Bits.Pow2(4) == 16 && Bits.AlignUp(8 * words, 16) == 8 * EvenUp(words)
  {
    Bits.Pow2Values();
    Bits.AlignUpIsLeast(8 * words, 16, 4);
    EvenUpIsEven(words);
    hide Bits.AlignUp, Bits.Pow2, EvenUp;
    NextMultiple(words, Bits.AlignUp(8 * words, 16), EvenUp(words));
  }

  lemma Eighths(e: nat, n: nat)
    ensures 8 * e / 8 == e && (8 * e + 8 * n) % 8 == 0 && (8 * e + 8 * n) / 8 == e + n
  {
  }

  /** Where the walker stands after these records. */
  function PositionAfter(rs: seq<Record>): nat {
    if rs == [] then 0 else NextAt(rs[|rs| - 1])
  }

  lemma ParsedNext(w: seq<Word>, rs: seq<Record>, size: nat, k: nat, position: nat)
    requires Parsed(w, rs, size) && k <= |rs| && position == PositionAfter(rs[..k])
    ensures k < |rs| ==> IsRecord(w, rs[k]) && rs[k].at == position < size
    ensures k == |rs| ==> position == EvenUp(size)
  {
    if k > 0 {
      ParsedAt(w, rs, size, k - 1);
    }
    if k < |rs| {
      ParsedAt(w, rs, size, k);
    }
  }

  /** One step of the walker: what the preheader and the header at a position say. */
  method ReadRecord(words: array<Word>, position: nat, ghost r: Record) returns (record: Record)
    requires IsRecord(words[..], r) && r.at == position
    ensures record == r
  {
    if words[position] % 2 == 1 {
      var header := position + 3;
      assert SlotCountOf(words[header]) == BIG;
      if FormatOf(words[header]) >= MIXED_OBJECT {
        return Record(position, header, words[position + 2] / 0x1_0000_0000, words[position + 2] % 0x1_0000_0000);
      }
      return Record(position, header, words[position + 2], words[position + 2]);
    }
    var header := position + 1;
    assert SlotCountOf(words[header]) < BIG;
    return Record(position, header, SlotCountOf(words[header]), SlotCountOf(words[header]));
  }

  lemma Positions(rs: seq<Record>)
    ensures PositionAfter(rs[..0]) == 0
    ensures forall k, m :: 0 <= k < |rs| && m == k + 1 ==> PositionAfter(rs[..m]) == NextAt(rs[k])
  {
  }

  /** The address space of the heap, 10 GB. */
  const HEAP_CAPACITY: nat := 0x2_8000_0000

  class SpurHeap {
    const heap: StackHeap
    const words: array<Word>
    ghost var records: seq<Record>

    ghost predicate Valid()
      reads this, heap, words
    {
      Ready() && Parsed(words[..], records, Used())
    }

    /** The words lie over a heap that only whole words are taken from. */
    ghost predicate Ready()
      reads heap
    {
      heap.Valid() && heap.size % 8 == 0 && 8 * words.Length == heap.capacity <= HEAP_CAPACITY
    }

    ghost function Used(): nat
      reads heap
    {
      heap.size / 8
    }

    constructor (start: nat, capacity: nat)
      requires start % PAGE_SIZE == 0 && capacity % PAGE_SIZE == 0 && capacity <= HEAP_CAPACITY
      ensures Valid() && fresh(heap) && fresh(words) && records == [] && heap.size == 0
    {
      hide StackHeap.Valid;
      heap := new StackHeap(start, capacity);
      words := new Word[capacity / 8];
      records := [];
      assert capacity % 8 == 0 by {
        Bits.Pow2Values();
        Bits.DividesThrough(capacity, capacity / PAGE_SIZE, 512, 8);
      }
    }

    /** Whether so many words still fit behind the next even place. */
    ghost predicate HasRoom(n: nat)
      reads heap
    {
      EvenUp(Used()) + n <= words.Length
    }

    method AllocateWords(n: nat) returns (p: nat)
      requires Ready() && HasRoom(n)
      modifies heap
      ensures Ready() && p == EvenUp(old(Used())) && p % 2 == 0 && old(Used()) <= p
      ensures Used() == p + n <= words.Length < 0x1_0000_0000
    {
      hide Bits.AlignUp, StackHeap.Valid, EvenUp;
      EvenUpIsEven(Used());
      AlignTo16(Used());
      var address := heap.Allocate(16, 8 * n, 4);
      p := (address - heap.start) / 8;
      Eighths(EvenUp(old(Used())), n);
    }

    /** The walker: visits the objects from the start of the heap until it reaches its end. */
    method Walk() returns (visited: seq<Record>, position: nat)
      requires Valid()
      ensures visited == records
      ensures 8 * position == Bits.AlignUp(heap.size, 16)
      ensures position == Used() <==> Used() % 2 == 0
    {
      hide Parsed, IsRecord, NextAt, EvenUp, Bits.AlignUp, PositionAfter;
      AlignTo16(Used());
      EvenUpIsEven(Used());
      Positions(records);
      visited, position := [], 0;
      var end := heap.size / 8;
      ParsedNext(words[..], records, end, 0, 0);
      while position < end
        invariant |visited| <= |records| && visited == records[..|visited|]
        invariant position == PositionAfter(visited)
        invariant |visited| == |records| ==> position == EvenUp(end)
        invariant |visited| < |records| ==> position < end
        decreases |records| - |visited|
      {
        ghost var k := |visited|;
        ParsedNext(words[..], records, end, k, position);
        var record := ReadRecord(words, position, records[k]);
        visited := visited + [record];
        position := NextAt(record);
        assert visited == records[..k + 1];
        ParsedNext(words[..], records, end, k + 1, position);
      }
    }

    /** The preheader and the header of an object that is not mixed yet; its class and format come later. */
    method InstantiateObject(slots: nat) returns (header: nat)
      requires Ready() && HasRoom(PreheaderWords(slots) + 1 + slots)
      modifies heap, words
      ensures Ready() && Used() == header + 1 + slots <= words.Length < 0x1_0000_0000
      ensures var at := header - PreheaderWords(slots);
              && at == EvenUp(old(Used())) && at % 2 == 0 && old(Used()) <= at
              && (if slots >= BIG then words[at] == 1 && words[at + 2] == slots else words[at] == 0)
      ensures words[header] == MakeHeader(0, 0, IdentityHash(header), if slots >= BIG then BIG else slots)
      ensures forall i :: 0 <= i < old(Used()) ==> words[i] == old(words[i])
    {
      hide Ready, Used, EvenUp, MakeHeader, IdentityHash;
      var p := AllocateWords(PreheaderWords(slots) + 1 + slots);
      if slots >= BIG {
        words[p] := 1;
        words[p + 2] := slots;
      } else {
        words[p] := 0;
      }
      header := p + PreheaderWords(slots);
      words[header] := MakeHeader(0, 0, IdentityHash(header), if slots >= BIG then BIG else slots);
    }

    /** The identity hash is taken from the address, in 22 bits. */
    function IdentityHash(header: nat): (h: nat)
      ensures h < 0x40_0000
    {
      (heap.start + 8 * header) / 16 % 0x40_0000
    }

    lemma IdentityHashIs()
      ensures forall header: nat :: IdentityHash(header) == (heap.start + 8 * header) / 16 % 0x40_0000
    {
    }

    /** A mixed object always has a preheader; it is no record before its format is set. */
    method InstantiateMixedObject(oopSlots: nat, slots: nat) returns (header: nat)
      requires Ready() && HasRoom(4 + slots)
      modifies heap, words
      ensures Ready() && Used() == header + 1 + slots <= words.Length < 0x1_0000_0000
      ensures 3 <= header && header - 3 == EvenUp(old(Used())) && (header - 3) % 2 == 0 && old(Used()) <= header - 3
      ensures words[header - 3] == 1 && words[header - 1] == slots + oopSlots * 0x1_0000_0000
      ensures words[header] == MakeHeader(0, 0, IdentityHash(header), BIG)
      ensures forall i :: 0 <= i < old(Used()) ==> words[i] == old(words[i])
    {
      hide Ready, Used, EvenUp, MakeHeader, IdentityHash;
      var p := AllocateWords(4 + slots);
      words[p] := 1;
      words[p + 2] := slots + oopSlots * 0x1_0000_0000;
      header := p + 3;
      words[header] := MakeHeader(0, 0, IdentityHash(header), BIG);
    }

    method Fill(from: nat, n: nat, w: Word)
      requires from + n <= words.Length
      modifies words
      ensures forall i :: 0 <= i < words.Length ==> words[i] == if from <= i < from + n then w else old(words[i])
    {
      for i := 0 to n
        invariant forall j :: 0 <= j < words.Length ==> words[j] == if from <= j < from + i then w else old(words[j])
      {
        words[from + i] := w;
      }
    }

    /** A new object of a class, with its slots set to nil, or its bytes to zero. */
    method BasicNew(classIndex: nat, format: nat, fixedSlots: nat, n: nat) returns (header: nat)
      requires Valid() && classIndex < 0x40_0000 && IsClassFormat(format)
      requires var slots := fixedSlots + ExtraSlots(format, n); HasRoom(PreheaderWords(slots) + 1 + slots)
      modifies this, heap, words
      ensures Valid()
      ensures var slots := fixedSlots + ExtraSlots(format, n);
              && PreheaderWords(slots) <= header && header + 1 + slots <= words.Length
              && var oopSlots := SeenOopSlots(ObjectSizes.BasicNew(format, fixedSlots, n), slots);
              && records == old(records) + [Record(header - PreheaderWords(slots), header, oopSlots, slots)]
              && forall i :: header < i <= header + slots ==> words[i] == if format < INDEXABLE_64 then NIL else 0
      ensures ClassIndexOf(words[header]) == classIndex
      ensures IdentityHashOf(words[header]) == (heap.start + 8 * header) / 16 % 0x40_0000
      ensures SizedAt(words[..], header) == ObjectSizes.BasicNew(format, fixedSlots, n)
      ensures forall i :: 0 <= i < old(Used()) ==> words[i] == old(words[i])
    {
      hide Parsed, IsRecord, MakeHeader, ObjectSizes.BasicNew, ExtraSlots, IdentityHash;
      hide ClassIndexOf, FormatOf, IdentityHashOf, SlotCountOf, SizedAt, Ready, Used, EvenUp;
      IdentityHashIs();
      SizedBasicNew(format, fixedSlots, n);
      var slots := fixedSlots + ExtraSlots(format, n);
      var s := ObjectSizes.BasicNew(format, fixedSlots, n);
      header := InstantiateObject(slots);
      words[header] := MakeHeader(classIndex, s.objectFormat, IdentityHash(header), s.slotCount);
      Fill(header + 1, slots, if format < INDEXABLE_64 then NIL else 0);
      NewObject(old(words[..]), words[..], records, old(Used()), header, classIndex, s, IdentityHash(header), slots);
      records := records + [Record(header - PreheaderWords(slots), header, SeenOopSlots(s, slots), slots)];
    }

    /** A new object with pointers and native bytes; the bytes are zero, up to the next whole slot. */
    method BasicNewMixed(classIndex: nat, fixedSlots: nat, n: nat, nativeSize: nat) returns (header: nat)
      requires Valid() && classIndex < 0x40_0000 && fixedSlots + n + nativeSize < 0x1_0000_0000
      requires HasRoom(4 + MixedSlots(fixedSlots, n, nativeSize))
      modifies this, heap, words
      ensures Valid()
      ensures var slots := MixedSlots(fixedSlots, n, nativeSize);
              && 3 <= header && header + 1 + slots <= words.Length
              && records == old(records) + [Record(header - 3, header, fixedSlots + n, slots)]
              && forall i :: header < i <= header + slots ==>
                   words[i] == if i <= header + fixedSlots + n then NIL else 0
      ensures ClassIndexOf(words[header]) == classIndex
      ensures IdentityHashOf(words[header]) == (heap.start + 8 * header) / 16 % 0x40_0000
      ensures SizedAt(words[..], header) == ObjectSizes.BasicNewMixed(MIXED_OBJECT, fixedSlots, n, nativeSize)
      ensures forall i :: 0 <= i < old(Used()) ==> words[i] == old(words[i])
    {
      hide Parsed, IsRecord, MakeHeader, ObjectSizes.BasicNewMixed, MixedSlots, IdentityHash;
      hide ClassIndexOf, FormatOf, IdentityHashOf, SlotCountOf, SizedAt, Ready, Used, EvenUp;
      IdentityHashIs();
      SizedBasicNewMixed(fixedSlots, n, nativeSize);
      var slots, oopSlots := MixedSlots(fixedSlots, n, nativeSize), fixedSlots + n;
      var s := ObjectSizes.BasicNewMixed(MIXED_OBJECT, fixedSlots, n, nativeSize);
      header := InstantiateMixedObject(oopSlots, slots);
      words[header] := MakeHeader(classIndex, s.objectFormat, IdentityHash(header), BIG);
      Fill(header + 1, oopSlots, NIL);
      Fill(header + 1 + oopSlots, slots - oopSlots, 0);
      NewMixedObject(old(words[..]), words[..], records, old(Used()), header, classIndex, s,
                     IdentityHash(header), oopSlots, slots);
      records := records + [Record(header - 3, header, oopSlots, slots)];
    }

    /** Storing into a slot of an object, or over its native bytes, leaves every object where it was. */
    method StoreSlot(header: nat, k: nat, w: Word, ghost i: nat)
      requires Valid() && i < |records| && header == records[i].header && k < records[i].slots
      modifies words
      ensures Valid() && header + 1 + k < words.Length
      ensures words[..] == old(words[..])[header + 1 + k := w]
    {
      SlotsAreFree(words[..], records, Used(), i, header + 1 + k, w);
      hide Parsed, IsRecord, Ready, Used;
      words[header + 1 + k] := w;
      assert words[..] == old(words[..])[header + 1 + k := w];
    }
  }
}
