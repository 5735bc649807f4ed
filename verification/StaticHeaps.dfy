/** Static heaps: the words of a heap that was compiled into a package, and their fix-up in place. */
module StaticHeaps {
  import opened Oops
  import opened Probing
  import opened SpurHeaps
  import opened FixUps
  import Bits

  /** The records fill all the words, and all of them are small. */
  ghost predicate Laid(w: seq<Word>, rs: seq<Record>) {
    && Parsed(w, rs, Size(rs)) && EvenUp(Size(rs)) == |w|
    && forall i :: 0 <= i < |rs| ==> IsSmall(rs[i])
  }

  predicate IsEven(w: Word) { w % 2 == 0 }

  ghost function Size(rs: seq<Record>): nat { if rs == [] then 0 else End(rs[|rs| - 1]) }

  predicate IsSmall(r: Record) { r.header == r.at + 1 }

  ghost function ItemOf(w: seq<Word>, r: Record): Item {
    if r.header < End(r) <= |w| && r.at < |w| then Item(w[r.at], w[r.header], w[r.header + 1..End(r)])
    else Item(0, 0, [])
  }

  ghost function Items(w: seq<Word>, rs: seq<Record>): (items: seq<Item>)
    ensures |items| == |rs|
  {
    seq(|rs|, i requires 0 <= i < |rs| => ItemOf(w, rs[i]))
  }

  lemma LaidAt(w: seq<Word>, rs: seq<Record>, i: nat)
    requires Laid(w, rs) && i < |rs|
    ensures IsRecord(w, rs[i]) && IsSmall(rs[i]) && End(rs[i]) <= |w| && SlotCountOf(w[rs[i].header]) < ObjectSizes.BIG
    ensures rs[i].slots == SlotCountOf(w[rs[i].header])
  {
    ParsedAt(w, rs, Size(rs), i);
  }

  lemma {:induction false} RecordsApart(w: seq<Word>, rs: seq<Record>, size: nat, i: nat, j: nat)
    requires Parsed(w, rs, size) && i < j < |rs|
    ensures End(rs[i]) <= rs[j].at
    decreases j
  {
    ParsedAt(w, rs, size, j - 1);
    if i < j - 1 {
      RecordsApart(w, rs, size, i, j - 1);
      ParsedAt(w, rs, size, j - 1);
    }
  }

  /** The forwarding word of a small record may hold any even word. */
  lemma {:induction false} ForwardingIsFree(w: seq<Word>, rs: seq<Record>, size: nat, i: nat, v: Word)
    requires Parsed(w, rs, size) && size <= |w| && i < |rs| && IsSmall(rs[i]) && v % 2 == 0
    ensures rs[i].at < |w| && Parsed(w[rs[i].at := v], rs, size)
    decreases |rs|
  {
    ParsedAt(w, rs, size, i);
    var n := |rs| - 1;
    if i < n {
      var before := rs[..n];
      ForwardingIsFree(w, before, End(before[n - 1]), i, v);
      RecordsApart(w, rs, size, i, n);
    } else if n > 0 {
      var before := rs[..n];
      ParsedFrame(w, w[rs[i].at := v], before, End(before[n - 1]));
    }
  }

  lemma UntaggedIsEven(w: Word)
    ensures IsEven(Untagged(w))
  {
    hide Untagged;
    UntaggedValue(w);
    Bits.DivModUnique(Untagged(w), 2, 2 * (Untagged(w) / 4), 0);
  }

  /**
   * Clearing the tag bits of a forwarding word also clears the mark of a big record, so a walk after it
   * only finds the small records again.
   */
  lemma UntaggingKeepsRecord(w: seq<Word>, r: Record)
    requires IsRecord(w, r) && r.at < |w|
    ensures IsRecord(w[r.at := Untagged(w[r.at])], r) <==> IsSmall(r)
  {
    hide FormatOf, SlotCountOf, Untagged;
    UntaggedIsEven(w[r.at]);
  }

  /** Writing a word of one record changes the item of no other record. */
  lemma OtherItems(w: seq<Word>, rs: seq<Record>, i: nat, a: nat, v: Word, j: nat)
    requires Laid(w, rs) && i < |rs| && j < |rs| && i != j && rs[i].at <= a < End(rs[i]) && a < |w|
    ensures ItemOf(w[a := v], rs[j]) == ItemOf(w, rs[j])
  {
    LaidAt(w, rs, i);
    LaidAt(w, rs, j);
    if i < j {
      RecordsApart(w, rs, Size(rs), i, j);
    } else {
      RecordsApart(w, rs, Size(rs), j, i);
    }
    hide Laid, IsRecord, SlotCountOf;
    var r := rs[j];
    assert w[a := v][r.header + 1..End(r)] == w[r.header + 1..End(r)];
  }

  lemma OnlyItem(w: seq<Word>, rs: seq<Record>, i: nat, a: nat, v: Word, item: Item)
    requires Laid(w, rs) && i < |rs| && rs[i].at <= a < End(rs[i]) && a < |w| && ItemOf(w[a := v], rs[i]) == item
    ensures Items(w[a := v], rs) == Items(w, rs)[i := item]
  {
    hide Laid, ItemOf;
    forall j | 0 <= j < |rs| && j != i ensures ItemOf(w[a := v], rs[j]) == ItemOf(w, rs[j]) {
      OtherItems(w, rs, i, a, v, j);
    }
  }

  lemma SetForwarding(w: seq<Word>, rs: seq<Record>, i: nat, v: Word)
    requires Laid(w, rs) && i < |rs| && IsEven(v)
    ensures rs[i].at < |w|
    ensures var w' := w[rs[i].at := v];
            Laid(w', rs) && Items(w', rs) == Items(w, rs)[i := Items(w, rs)[i].(forwarding := v)]
  {
    LaidAt(w, rs, i);
    var r := rs[i];
    ForwardingIsFree(w, rs, Size(rs), i, v);
    var w' := w[r.at := v];
    assert Laid(w', rs);
    hide Laid, IsRecord, SlotCountOf, Items, IsEven;
    assert w'[r.header + 1..End(r)] == w[r.header + 1..End(r)];
    OnlyItem(w, rs, i, r.at, v, ItemOf(w, r).(forwarding := v));
    ItemsAt(w, rs, i);
  }

  lemma ItemsAt(w: seq<Word>, rs: seq<Record>, i: nat)
    requires i < |rs|
    ensures Items(w, rs)[i] == ItemOf(w, rs[i])
  {
  }

  lemma ItemShape(w: seq<Word>, rs: seq<Record>, i: nat)
    requires Laid(w, rs) && i < |rs|
    ensures rs[i].at < rs[i].header < |w| && Items(w, rs)[i].forwarding == w[rs[i].at]
    ensures Items(w, rs)[i].header == w[rs[i].header] && |Items(w, rs)[i].slots| == rs[i].slots
  {
    LaidAt(w, rs, i);
  }

  lemma SetSlot(w: seq<Word>, rs: seq<Record>, i: nat, k: nat, v: Word)
    requires Laid(w, rs) && i < |rs| && k < rs[i].slots
    ensures rs[i].header + 1 + k < |w| && |Items(w, rs)[i].slots| == rs[i].slots
    ensures var w' := w[rs[i].header + 1 + k := v];
            var item := Items(w, rs)[i];
            Laid(w', rs) && Items(w', rs) == Items(w, rs)[i := item.(slots := item.slots[k := v])]
  {
    LaidAt(w, rs, i);
    var r, a := rs[i], rs[i].header + 1 + k;
    SlotsAreFree(w, rs, Size(rs), i, a, v);
    var w' := w[a := v];
    assert Laid(w', rs);
    hide Laid, IsRecord, SlotCountOf, Items;
    ItemsAt(w, rs, i);
    var item := ItemOf(w, r);
    assert w'[r.header + 1..End(r)] == w[r.header + 1..End(r)][k := v];
    OnlyItem(w, rs, i, a, v, item.(slots := item.slots[k := v]));
  }

  /** The oops of the objects of a heap at an address. */
  ghost function OopsOf(start: nat, rs: seq<Record>): (oops: seq<Oop>)
    ensures |oops| == |rs|
  {
    seq(|rs|, i requires 0 <= i < |rs| => start + 8 * rs[i].header)
  }

  lemma OopAt(start: nat, rs: seq<Record>, i: nat)
    requires i < |rs|
    ensures OopsOf(start, rs)[i] == start + 8 * rs[i].header
  {
  }

  lemma OopsAreDistinct(w: seq<Word>, start: nat, rs: seq<Record>)
    requires Laid(w, rs)
    ensures DistinctOops(OopsOf(start, rs))
  {
    forall i, j | 0 <= i < j < |rs| ensures rs[i].header < rs[j].header {
      LaidAt(w, rs, i);
      LaidAt(w, rs, j);
      RecordsApart(w, rs, Size(rs), i, j);
    }
  }

  // ---- Values that point into the heap ----

  /** A pointer into the heap points to one of its objects. */
  ghost predicate Proper(oops: seq<Oop>, start: nat, end: nat, v: Oop) {
    v % 8 == 0 && start <= v < end ==> v in oops
  }

  /** All slots, forwarding words and table entries are proper. */
  ghost predicate Closed(s: State, oops: seq<Oop>, start: nat, end: nat)
    requires |s.heap| == |oops|
  {
    && (forall d :: d in s.table ==> Proper(oops, start, end, s.table[d]))
    && (forall i :: 0 <= i < |oops| && Untagged(s.heap[i].forwarding) != 0 ==>
          Proper(oops, start, end, Untagged(s.heap[i].forwarding)))
    && (forall i, k :: 0 <= i < |oops| && 0 <= k < |s.heap[i].slots| && HasPointers(s.heap[i]) ==>
          Proper(oops, start, end, s.heap[i].slots[k]))
  }

  lemma ForwardedIsProper(s: State, oops: seq<Oop>, start: nat, end: nat, v: Oop)
    requires |s.heap| == |oops| && Closed(s, oops, start, end) && Proper(oops, start, end, v)
    ensures Proper(oops, start, end, Forwarded(s.heap, oops, v))
  {
    hide Proper, Untagged;
  }

  /** Applying the forwarding to one object keeps the heap closed. */
  lemma ApplyKeepsClosed(s: State, oops: seq<Oop>, start: nat, end: nat, i: nat)
    requires |s.heap| == |oops| && i < |oops| && Closed(s, oops, start, end)
    ensures Closed(Visit(Apply, s, oops, i), oops, start, end)
  {
    var s' := Visit(Apply, s, oops, i);
    hide Proper, Untagged, Forwarded;
    forall j, k | 0 <= j < |oops| && 0 <= k < |s'.heap[j].slots| && HasPointers(s'.heap[j])
      ensures Proper(oops, start, end, s'.heap[j].slots[k])
    {
      if j == i {
        ForwardedIsProper(s, oops, start, end, s.heap[j].slots[k]);
      }
    }
  }

  lemma {:induction false} ApplyPassKeepsClosed(s: State, oops: seq<Oop>, start: nat, end: nat, n: nat)
    requires |s.heap| == |oops| && n <= |oops| && Closed(s, oops, start, end)
    ensures Closed(Iterate(Apply, s, oops, n), oops, start, end)
  {
    if n > 0 {
      ApplyPassKeepsClosed(s, oops, start, end, n - 1);
      ApplyKeepsClosed(Iterate(Apply, s, oops, n - 1), oops, start, end, n - 1);
    }
  }

  lemma MarkedIsProper(kind: Kind, item: Item, table: map<Name, Oop>, oops: seq<Oop>, start: nat, end: nat, self: Oop)
    requires IsPointer(self) && forall d :: d in table ==> IsPointer(table[d]) && Proper(oops, start, end, table[d])
    requires NameOf(kind, item).Some? ==> Untagged(item.forwarding) == 0
    requires Untagged(item.forwarding) != 0 ==> Proper(oops, start, end, Untagged(item.forwarding))
    ensures var item' := Marked(kind, item, table, self);
            && item'.header == item.header && item'.slots == item.slots
            && (Untagged(item'.forwarding) != 0 ==> Proper(oops, start, end, Untagged(item'.forwarding)))
  {
    hide NameOf, Proper, Untagged, Bits.Or, IsPointer;
    var target := Target(table, NameOf(kind, item), self);
    assert IsPointer(target);
    PointerIsUntagged(target);
    UntaggedZero();
    UntaggedTwice(item.forwarding);
    if NameOf(kind, item).Some? {
      ForwardedFromZero(item.forwarding, target, self);
    }
  }

  lemma GrownIsProper(kind: Kind, s: State, oops: seq<Oop>, table: map<Name, Oop>, start: nat, end: nat)
    requires |s.heap| == |oops| && Grown(kind, s, oops, |oops|, table)
    requires forall d :: d in s.table ==> Proper(oops, start, end, s.table[d])
    ensures forall d :: d in table ==> Proper(oops, start, end, table[d])
  {
    hide NameOf;
  }

  /** So does forwarding objects that were not forwarded before. */
  lemma ForwardPassKeepsClosed(kind: Kind, s: State, oops: seq<Oop>, start: nat, end: nat)
    requires |s.heap| == |oops| && Placed(s.table, oops) && Before(kind, s, oops) && Closed(s, oops, start, end)
    ensures Closed(Iterate(Forward(kind), s, oops, |oops|), oops, start, end)
  {
    hide Iterate, Grown, NameOf, Proper, Untagged, Marked, IsPointer, FormatOf;
    ForwardPass(kind, s, oops, |oops|);
    var s' := Iterate(Forward(kind), s, oops, |oops|);
    GrownStaysPlaced(kind, s, oops, s'.table);
    GrownIsProper(kind, s, oops, s'.table, start, end);
    forall i | 0 <= i < |oops|
      ensures s'.heap[i].header == s.heap[i].header && s'.heap[i].slots == s.heap[i].slots
      ensures Untagged(s'.heap[i].forwarding) != 0 ==> Proper(oops, start, end, Untagged(s'.heap[i].forwarding))
    {
      MarkedIsProper(kind, s.heap[i], s'.table, oops, start, end, oops[i]);
    }
  }

  lemma PlaceIsPointer(start: nat, header: nat)
    requires start % 16 == 0 && 0 < start && start + 8 * header < Bits.WORD64
    ensures IsPointer(start + 8 * header)
  {
    Bits.DivModUnique(start + 8 * header, 4, start / 16 * 4 + 2 * header, 0);
  }

  /** A forwarding word never looks like the mark of a big record. */
  lemma ForwardedToIsEven(w: Word, target: Oop, self: Oop)
    requires IsPointer(target)
    ensures IsEven(ForwardedTo(w, target, self))
  {
    hide Untagged;
    var c := Untagged(w);
    UntaggedIsEven(w);
    Bits.DivModUnique(target, 2, 2 * (target / 4), 0);
    if target != self && c != 0 {
      Bits.DivModUnique(Bits.Or(c, target), 2, Bits.Or(c / 2, target / 2), 0);
    }
  }

  /** Where the walker stands after so many records. */
  lemma WalkedTo(w: seq<Word>, rs: seq<Record>, k: nat, position: nat)
    requires Laid(w, rs) && k <= |rs|
    requires position == if k == 0 then 0 else PositionAfter(rs[..k])
    ensures position == PositionAfter(rs[..k])
    ensures position < |w| <==> k < |rs|
    ensures k < |rs| ==> PositionAfter(rs[..k + 1]) == NextAt(rs[k])
    ensures k < |rs| ==> IsRecord(w, rs[k]) && rs[k].at == position
  {
    ParsedNext(w, rs, Size(rs), k, position);
    hide IsRecord, Parsed;
  }

  lemma IterateNext(pass: Pass, s: State, oops: seq<Oop>)
    requires |s.heap| == |oops|
    ensures FixUps.Iterate(pass, s, oops, 0) == s
    ensures forall n, m :: 0 <= n < |oops| && m == n + 1 ==>
              FixUps.Iterate(pass, s, oops, m) == Visit(pass, FixUps.Iterate(pass, s, oops, n), oops, n)
  {
  }

  /** A heap that was fixed up before. */
  ghost predicate IsSettled(s: State, oops: seq<Oop>) {
    Settled(Symbols, s, oops) && Settled(Globals, s, oops) && AllClean(s.heap, oops)
  }

  /** No pass of the fix-up lets a value point between the objects of the heap. */
  lemma FixUpStaysClosed(s: State, oops: seq<Oop>, start: nat, end: nat)
    requires |s.heap| == |oops| && Closed(s, oops, start, end) && (Loaded(s, oops) || IsSettled(s, oops))
    ensures var s1 := FixUps.Iterate(Forward(Symbols), s, oops, |oops|);
            var s2 := FixUps.Iterate(Apply, s1, oops, |oops|);
            var s3 := FixUps.Iterate(Forward(Globals), s2, oops, |oops|);
            && Closed(s1, oops, start, end) && Closed(s2, oops, start, end)
            && Closed(s3, oops, start, end) && Closed(FixUp(s, oops), oops, start, end)
  {
    var n := |oops|;
    if Loaded(s, oops) {
      SymbolPhase(s, oops);
      ForwardPassKeepsClosed(Symbols, s, oops, start, end);
      var s1 := FixUps.Iterate(Forward(Symbols), s, oops, n);
      ApplyPassKeepsClosed(s1, oops, start, end, n);
      var s2 := FixUps.Iterate(Apply, s1, oops, n);
      assert s2 == Phase(Symbols, s, oops);
      ForwardPassKeepsClosed(Globals, s2, oops, start, end);
      ApplyPassKeepsClosed(FixUps.Iterate(Forward(Globals), s2, oops, n), oops, start, end, n);
    } else {
      SettledPass(Symbols, s, oops, n);
      SettledPass(Globals, s, oops, n);
      CleanPass(s, oops, n);
    }
  }

  /** What the words of an object in the heap tell to somebody who holds a pointer to it. */
  lemma ObjectAt(w: seq<Word>, rs: seq<Record>, start: nat, v: Oop, i: nat)
    requires Laid(w, rs) && start % 16 == 0 && i < |rs| && v == OopsOf(start, rs)[i]
    ensures v % 8 == 0 && start < v < start + 8 * |w| && (v - start) / 8 == rs[i].header
    ensures 0 < rs[i].header < |w| && SlotCountOf(w[rs[i].header]) != ObjectSizes.BIG
    ensures w[rs[i].header - 1] == Items(w, rs)[i].forwarding
  {
    LaidAt(w, rs, i);
    hide Laid, IsRecord, SlotCountOf;
    Bits.DivModUnique(v, 8, start / 16 * 2 + rs[i].header, 0);
  }

  /** A pointer into the heap is one to an object, and the other way round. */
  lemma ProperPointer(w: seq<Word>, rs: seq<Record>, start: nat, v: Oop)
    requires Laid(w, rs) && start % 16 == 0 && Proper(OopsOf(start, rs), start, start + 8 * |w|, v)
    ensures IndexOf(OopsOf(start, rs), v).Some? <==> v % 8 == 0 && start <= v < start + 8 * |w|
  {
    var i := IndexOf(OopsOf(start, rs), v);
    if i.Some? {
      ObjectAt(w, rs, start, v, i.value);
    }
  }

  /** An item of which the first k slots are forwarded. */
  ghost function Partly(heap: seq<Item>, oops: seq<Oop>, item: Item, k: nat): Item
    requires |heap| == |oops| && k <= |item.slots|
  {
    item.(slots := seq(|item.slots|, m requires 0 <= m < |item.slots| =>
                         if m < k then Forwarded(heap, oops, item.slots[m]) else item.slots[m]))
  }

  lemma PartlyEnds(heap: seq<Item>, oops: seq<Oop>, item: Item)
    requires |heap| == |oops| && HasPointers(item)
    ensures Partly(heap, oops, item, 0) == item
    ensures Partly(heap, oops, item, |item.slots|) == Applied(heap, oops, item)
  {
    hide Forwarded;
    assert Partly(heap, oops, item, 0).slots == item.slots;
    assert Partly(heap, oops, item, |item.slots|).slots == Applied(heap, oops, item).slots;
  }

  /** Forwarding one more slot, where the object itself is in the heap. */
  lemma PartlyNext(heap: seq<Item>, oops: seq<Oop>, i: nat, k: nat, heap': seq<Item>)
    requires |heap| == |oops| && i < |heap| && k < |heap[i].slots|
    requires heap' == heap[i := Partly(heap, oops, heap[i], k)]
    ensures heap'[i].slots[k] == heap[i].slots[k]
    ensures Forwarded(heap', oops, heap[i].slots[k]) == Forwarded(heap, oops, heap[i].slots[k])
    ensures heap'[i := heap'[i].(slots := heap'[i].slots[k := Forwarded(heap, oops, heap[i].slots[k])])]
         == heap[i := Partly(heap, oops, heap[i], k + 1)]
  {
    var item, part := heap[i], heap'[i];
    assert forall j :: 0 <= j < |heap| ==> heap'[j].forwarding == heap[j].forwarding;
    var next := Forwarded(heap, oops, item.slots[k]);
    assert Forwarded(heap', oops, item.slots[k]) == next;
    hide Forwarded, Untagged;
    assert Partly(heap, oops, item, k + 1).slots == part.slots[k := next];
  }

  lemma VisitForwardIs(kind: Kind, s: State, oops: seq<Oop>, i: nat, name: Option<Name>, target: Oop)
    requires |s.heap| == |oops| && i < |oops|
    requires name == NameOf(kind, s.heap[i]) && target == Target(s.table, name, oops[i])
    ensures Visit(Forward(kind), s, oops, i)
         == State(s.heap[i := s.heap[i].(forwarding := ForwardedTo(s.heap[i].forwarding, target, oops[i]))],
                  Added(s.table, name, oops[i]))
  {
  }

  class StaticHeap {
    const start: nat
    const words: array<Word>
    ghost const records: seq<Record>
    /** The symbols that are interned and the global variables. */
    var table: map<Name, Oop>

    ghost predicate Valid()
      reads this, words
    {
      && Laid(words[..], records) && start % 16 == 0 && 0 < start && Limit() <= Bits.WORD64
      && forall d :: d in table ==> IsPointer(table[d])
    }

    ghost function Contents(): (s: State)
      reads this, words
      ensures |s.heap| == |records|
    {
      State(Items(words[..], records), table)
    }

    ghost function Oops(): (oops: seq<Oop>)
      ensures |oops| == |records|
    {
      OopsOf(start, records)
    }

    function Limit(): nat { start + 8 * words.Length }

    constructor (start: nat, words: array<Word>, table: map<Name, Oop>, ghost records: seq<Record>)
      requires Laid(words[..], records) && start % 16 == 0 && 0 < start && start + 8 * words.Length <= Bits.WORD64
      requires forall d :: d in table ==> IsPointer(table[d])
      ensures Valid() && this.start == start && this.words == words && this.table == table && this.records == records
    {
      this.start, this.words, this.table, this.records := start, words, table, records;
    }

    /** The object for a name in the table, where the object itself is added when there is none. */
    method FindOrAdd(name: Name, self: Oop) returns (target: Oop)
      modifies this`table
      ensures target == Target(old(table), Some(name), self)
      ensures table == Added(old(table), Some(name), self)
    {
      if name in table {
        target := table[name];
        assert table[name := target] == table;
      } else {
        target := self;
        table := table[name := self];
      }
    }

    /** The name of an object, read from its words. */
    method ReadName(kind: Kind, r: Record, ghost i: nat) returns (name: Option<Name>)
      requires Laid(words[..], records) && i < |records| && records[i] == r
      ensures name == NameOf(kind, Items(words[..], records)[i])
    {
      LaidAt(words[..], records, i);
      return NameOf(kind, Item(words[r.at], words[r.header], words[r.header + 1..r.header + 1 + r.slots]));
    }

    method SetForwardingWord(r: Record, forwarding: Word, ghost i: nat)
      requires Laid(words[..], records) && i < |records| && records[i] == r && IsEven(forwarding)
      modifies words
      ensures Laid(words[..], records)
      ensures Items(words[..], records)
           == Items(old(words[..]), records)[i := Items(old(words[..]), records)[i].(forwarding := forwarding)]
    {
      ghost var w := words[..];
      SetForwarding(w, records, i, forwarding);
      hide Laid, Items, IsEven;
      words[r.at] := forwarding;
      assert words[..] == w[r.at := forwarding];
    }

    /** The objects of the heap are at places of their own, and all of them are pointers. */
    lemma ObjectsArePlaced()
      requires Valid()
      ensures Placed(table, Oops())
    {
      OopsAreDistinct(words[..], start, records);
      forall i | 0 <= i < |records| ensures IsPointer(Oops()[i]) {
        LaidAt(words[..], records, i);
        PlaceIsPointer(start, records[i].header);
      }
    }

    /** Forwards one object to the canonical object for it. */
    method VisitForward(kind: Kind, r: Record, ghost i: nat)
      requires Valid() && i < |records| && records[i] == r
      requires kind.Symbols? ==> ClassIndexOf(Contents().heap[i].header) != WIDE_SYMBOL
      modifies words, this`table
      ensures Valid() && Contents() == Visit(Forward(kind), old(Contents()), Oops(), i)
    {
      hide Laid, IsRecord, NameOf, IsSmall, SlotCountOf, IsPointer, ForwardedTo, IsEven, Visit, Items, OopsOf;
      ItemShape(words[..], records, i);
      OopAt(start, records, i);
      PlaceIsPointer(start, r.header);
      var self := start + 8 * r.header;
      var target := self;
      var name := ReadName(kind, r, i);
      VisitForwardIs(kind, Contents(), Oops(), i, name, Target(table, name, self));
      if name.Some? {
        target := FindOrAdd(name.value, self);
      }
      ForwardedToIsEven(words[r.at], target, self);
      SetForwardingWord(r, ForwardedTo(words[r.at], target, self), i);
    }

    /** The forwarding of the object a value points to, applied to the value. */
    method Forwarding(element: Oop) returns (v: Oop)
      requires Valid() && Proper(Oops(), start, Limit(), element)
      ensures v == Forwarded(Contents().heap, Oops(), element)
    {
      hide Laid, SlotCountOf, Untagged, Items, OopsOf, Proper, IndexOf;
      ProperPointer(words[..], records, start, element);
      ghost var i := IndexOf(Oops(), element);
      if i.Some? {
        ObjectAt(words[..], records, start, element, i.value);
      }
      if element % 8 != 0 || element < start || Limit() <= element {
        return element;
      }
      var header := (element - start) / 8;
      var at := if SlotCountOf(words[header]) == ObjectSizes.BIG then header - 3 else header - 1;
      var forwarded := Untagged(words[at]);
      return if forwarded != 0 then forwarded else element;
    }

    method SetSlotWord(r: Record, k: nat, v: Word, ghost i: nat)
      requires Laid(words[..], records) && i < |records| && records[i] == r && k < r.slots
      modifies words
      ensures Laid(words[..], records)
      ensures var item := Items(old(words[..]), records)[i];
              && |item.slots| == r.slots
              && Items(words[..], records) == Items(old(words[..]), records)[i := item.(slots := item.slots[k := v])]
    {
      ghost var w := words[..];
      SetSlot(w, records, i, k, v);
      hide Laid, Items;
      words[r.header + 1 + k] := v;
      assert words[..] == w[r.header + 1 + k := v];
    }

    method ReadSlot(r: Record, k: nat, ghost i: nat) returns (v: Word)
      requires Laid(words[..], records) && i < |records| && records[i] == r && k < r.slots
      ensures |Items(words[..], records)[i].slots| == r.slots && v == Items(words[..], records)[i].slots[k]
    {
      LaidAt(words[..], records, i);
      return words[r.header + 1 + k];
    }

    /** Applies the forwarding of other objects to the slots of one object. */
    method VisitApply(r: Record, ghost i: nat)
      requires Valid() && i < |records| && records[i] == r && Closed(Contents(), Oops(), start, Limit())
      modifies words
      ensures Valid() && Contents() == Visit(Apply, old(Contents()), Oops(), i)
      ensures var h := old(Contents()).heap;
              var item, item' := h[i], Contents().heap[i];
              && item'.header == item.header && |item'.slots| == |item.slots|
              && forall k :: 0 <= k < |item.slots| ==>
                   item'.slots[k] == if 9 <= FormatOf(item.header) < 24 then item.slots[k]
                                     else Forwarded(h, Oops(), item.slots[k])
    {
      hide Laid, FormatOf, Items, OopsOf;
      ghost var s, oops := Contents(), Oops();
      ghost var item := s.heap[i];
      ItemShape(words[..], records, i);
      AppliedByFormat(s.heap, oops, item);
      if !HasPointers(Item(0, words[r.header], [])) {
        assert s.heap[i := item] == s.heap;
        return;
      }
      PartlyEnds(s.heap, oops, item);
      ForwardSlots(r, i);
    }

    method ForwardSlots(r: Record, ghost i: nat)
      requires Valid() && i < |records| && records[i] == r && Closed(Contents(), Oops(), start, Limit())
      requires HasPointers(Contents().heap[i])
      modifies words
      ensures Valid()
      ensures var h := old(Contents()).heap;
              Contents().heap == h[i := Partly(h, Oops(), h[i], |h[i].slots|)]
    {
      hide Laid, FormatOf, Items, OopsOf, Partly, Applied;
      ghost var s, oops := Contents(), Oops();
      ghost var item := s.heap[i];
      ItemShape(words[..], records, i);
      PartlyEnds(s.heap, oops, item);
      assert s.heap[i := item] == s.heap;
      var k := 0;
      while k < r.slots
        invariant k <= r.slots && Laid(words[..], records) && table == s.table
        invariant Items(words[..], records) == s.heap[i := Partly(s.heap, oops, item, k)]
      {
        PartlyNext(s.heap, oops, i, k, Items(words[..], records));
        var element := ReadSlot(r, k, i);
        assert Proper(oops, start, Limit(), element);
        var v := Forwarding(element);
        SetSlotWord(r, k, v, i);
        k := k + 1;
      }
    }

    method VisitRecord(pass: Pass, r: Record, ghost i: nat)
      requires Valid() && i < |records| && records[i] == r
      requires pass.Apply? ==> Closed(Contents(), Oops(), start, Limit())
      requires pass == Forward(Symbols) ==> ClassIndexOf(Contents().heap[i].header) != WIDE_SYMBOL
      modifies words, this`table
      ensures Valid() && Contents() == Visit(pass, old(Contents()), Oops(), i)
    {
      hide Laid, IsPointer, Closed, Visit, Items, OopsOf;
      match pass
      case Forward(kind) => VisitForward(kind, r, i);
      case Apply => VisitApply(r, i);
    }

    /** The walker, calling a pass for each object.  It stops exactly at the end of the heap. */
    method Iterate(pass: Pass)
      requires Valid()
      requires pass.Apply? ==> Closed(Contents(), Oops(), start, Limit())
      requires pass == Forward(Symbols) ==> NoWideSymbols(Contents().heap)
      modifies words, this`table
      ensures Valid() && Contents() == FixUps.Iterate(pass, old(Contents()), Oops(), |Oops()|)
    {
      hide Laid, IsPointer, Closed, Visit, Items, OopsOf, PositionAfter, NextAt, IsRecord, FixUps.Iterate;
      ghost var s, oops, n := Contents(), Oops(), 0;
      var position := 0;
      WalkedTo(words[..], records, 0, 0);
      IterateNext(pass, s, oops);
      while position < words.Length
        invariant n <= |records| && position == PositionAfter(records[..n])
        invariant position < words.Length <==> n < |records|
        invariant Valid() && Contents() == FixUps.Iterate(pass, s, oops, n)
        decreases |records| - n
      {
        HeadersStay(pass, s, oops, n);
        if pass.Apply? {
          ApplyPassKeepsClosed(s, oops, start, Limit(), n);
        }
        WalkedTo(words[..], records, n, position);
        var record := ReadRecord(words, position, records[n]);
        VisitRecord(pass, record, n);
        WalkedTo(words[..], records, n + 1, NextAt(record));
        position := NextAt(record);
        n := n + 1;
      }
    }

    /**
     * The fix-up: symbols first, and global variables once their keys are interned, for a heap that was just
     * loaded or one that was fixed up before.
     */
    method FixStaticHeap()
      requires Valid() && Closed(Contents(), Oops(), start, Limit()) && NoWideSymbols(Contents().heap)
      requires New(Contents(), Oops()) || IsSettled(Contents(), Oops())
      modifies words, this`table
      ensures Valid() && Contents() == FixUp(old(Contents()), Oops())
      ensures Closed(Contents(), Oops(), start, Limit()) && NoWideSymbols(Contents().heap)
    {
      hide Laid, IsPointer, Closed, FixUps.Iterate, Items, OopsOf, New, IsSettled, NoWideSymbols;
      ObjectsArePlaced();
      FixUpStaysClosed(Contents(), Oops(), start, Limit());
      FixUpKeepsHeaders(Contents(), Oops());
      Iterate(Forward(Symbols));
      Iterate(Apply);
      Iterate(Forward(Globals));
      Iterate(Apply);
    }
  }
}
