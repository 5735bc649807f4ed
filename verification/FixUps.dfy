/** The fix-up of a static heap, as a rewriting of the graph of its objects. */
module FixUps {
  import opened ObjectSizes
  import opened Oops
  import opened Probing
  import opened SpurHeaps
  import Bits

  const BYTE_SYMBOL: nat := 173
  const WIDE_SYMBOL: nat := 174
  const GLOBAL_VARIABLE: nat := 194

  /** An object of a static heap: its forwarding word, its header and its slots. */
  datatype Item = Item(forwarding: Word, header: Word, slots: seq<Word>)

  predicate IsSymbol(item: Item) { ClassIndexOf(item.header) == BYTE_SYMBOL }

  /** The fix-up interns wide symbols too, but not by what they say; heaps with wide symbols are left out. */
  ghost predicate NoWideSymbols(heap: seq<Item>) {
    forall i :: 0 <= i < |heap| ==> ClassIndexOf(heap[i].header) != WIDE_SYMBOL
  }

  predicate IsGlobal(item: Item) { ClassIndexOf(item.header) == GLOBAL_VARIABLE }

  predicate HasPointers(item: Item) {
    !(INDEXABLE_64 <= FormatOf(item.header) < MIXED_OBJECT)
  }

  function ByteAt(slots: seq<Word>, k: nat): nat {
    if k / 8 < |slots| then slots[k / 8] / Bits.Pow2(8 * (k % 8)) % 256 else 0
  }

  /** The bytes of a text. */
  function Text(item: Item): seq<nat> {
    var size := BasicSize(Sized(FormatOf(item.header), |item.slots|, 0));
    if size <= 0 then [] else seq(size, k requires 0 <= k < size => ByteAt(item.slots, k))
  }

  /** What an object is known by: a symbol by its bytes in the symbol table, a global variable by its key. */
  datatype Name = SymbolNamed(text: seq<nat>) | GlobalNamed(key: Oop)

  datatype Kind = Symbols | Globals

  /** The name a pass over one kind of objects looks an object up by. */
  function NameOf(kind: Kind, item: Item): Option<Name> {
    match kind
    case Symbols => if IsSymbol(item) then Some(SymbolNamed(Text(item))) else None
    case Globals => if IsGlobal(item) && |item.slots| > 0 then Some(GlobalNamed(item.slots[0])) else None
  }

  /** Clearing the tag bits of a forwarding word, as `& ~3` does it. */
  function Untagged(w: Word): Word { Bits.And(w, Bits.WORD64 - 4) }

  /** So a word without tags is kept, and clearing is done once and for all. */
  lemma UntaggedValue(w: Word)
    ensures Untagged(w) % 4 == 0 && Untagged(w) < Bits.WORD64
    ensures w < Bits.WORD64 ==> Untagged(w) == w - w % 4
  {
    Bits.ClearTags(w);
  }

  lemma UntaggedTwice(w: Word)
    ensures Untagged(Untagged(w)) == Untagged(w)
  {
    hide Untagged;
    UntaggedValue(w);
    UntaggedValue(Untagged(w));
  }

  /** The heap and the two tables: the symbols by their bytes and the globals by their keys. */
  datatype State = State(heap: seq<Item>, table: map<Name, Oop>)

  /** The object a table has for a name, or the object itself, which then is added. */
  function Target(table: map<Name, Oop>, name: Option<Name>, self: Oop): Oop {
    if name.Some? && name.value in table then table[name.value] else self
  }

  function Added(table: map<Name, Oop>, name: Option<Name>, self: Oop): map<Name, Oop> {
    if name.Some? then table[name.value := Target(table, name, self)] else table
  }

  function ForwardedTo(forwarding: Word, target: Oop, self: Oop): Word {
    if target != self then Bits.Or(Untagged(forwarding), target) else Untagged(forwarding)
  }

  /** An item forwarded to the object a table has for it. */
  function Marked(kind: Kind, item: Item, table: map<Name, Oop>, self: Oop): Item {
    item.(forwarding := ForwardedTo(item.forwarding, Target(table, NameOf(kind, item), self), self))
  }

  function IndexOf(oops: seq<Oop>, v: Oop): (i: Option<nat>)
    ensures i.Some? ==> i.value < |oops| && oops[i.value] == v
    ensures i.None? ==> v !in oops
  {
    if oops == [] then None
    else if oops[|oops| - 1] == v then Some(|oops| - 1)
    else IndexOf(oops[..|oops| - 1], v)
  }

  ghost predicate DistinctOops(oops: seq<Oop>) {
    forall i, j :: 0 <= i < j < |oops| ==> oops[i] != oops[j]
  }

  /** A value of a slot once the forwarding of the object it points to is applied. */
  function Forwarded(heap: seq<Item>, oops: seq<Oop>, v: Oop): Oop
    requires |heap| == |oops|
  {
    var i := IndexOf(oops, v);
    if i.Some? && Untagged(heap[i.value].forwarding) != 0 then Untagged(heap[i.value].forwarding) else v
  }

  function Applied(heap: seq<Item>, oops: seq<Oop>, item: Item): (r: Item)
    requires |heap| == |oops|
  {
    if HasPointers(item) then
      item.(slots := seq(|item.slots|, k requires 0 <= k < |item.slots| => Forwarded(heap, oops, item.slots[k])))
    else item
  }

  /** The passes: forwarding the objects of a kind to the canonical ones, and applying what was forwarded. */
  datatype Pass = Forward(kind: Kind) | Apply

  function Visit(pass: Pass, s: State, oops: seq<Oop>, i: nat): (s': State)
    requires |s.heap| == |oops| && i < |oops|
    ensures |s'.heap| == |oops|
  {
    var item := s.heap[i];
    match pass
    case Forward(kind) =>
      State(s.heap[i := Marked(kind, item, s.table, oops[i])], Added(s.table, NameOf(kind, item), oops[i]))
    case Apply =>
      s.(heap := s.heap[i := Applied(s.heap, oops, item)])
  }

  /** A pass over the first n objects. */
  function Iterate(pass: Pass, s: State, oops: seq<Oop>, n: nat): (s': State)
    requires |s.heap| == |oops| && n <= |oops|
    ensures |s'.heap| == |oops|
  {
    if n == 0 then s else Visit(pass, Iterate(pass, s, oops, n - 1), oops, n - 1)
  }

  function FixUp(s: State, oops: seq<Oop>): (s': State)
    requires |s.heap| == |oops|
    ensures |s'.heap| == |oops|
  {
    var s1 := Iterate(Forward(Symbols), s, oops, |oops|);
    var s2 := Iterate(Apply, s1, oops, |oops|);
    var s3 := Iterate(Forward(Globals), s2, oops, |oops|);
    Iterate(Apply, s3, oops, |oops|)
  }

  // ---- What each pass does ----

  lemma {:induction false} IndexOfOop(oops: seq<Oop>, i: nat)
    requires DistinctOops(oops) && i < |oops|
    ensures IndexOf(oops, oops[i]) == Some(i)
  {
    var n := |oops| - 1;
    if i < n {
      IndexOfOop(oops[..n], i);
    }
  }

  /** Everything but the slots of the first n objects is as it was, and these are as Applied says. */
  lemma {:induction false} ApplyPass(s: State, oops: seq<Oop>, n: nat)
    requires |s.heap| == |oops| && n <= |oops|
    ensures var s' := Iterate(Apply, s, oops, n);
            && s'.table == s.table
            && forall j :: 0 <= j < |oops| ==>
                 s'.heap[j] == if j < n then Applied(s.heap, oops, s.heap[j]) else s.heap[j]
  {
    if n > 0 {
      ApplyPass(s, oops, n - 1);
      var t := Iterate(Apply, s, oops, n - 1);
      SameForwarding(s.heap, t.heap, oops, s.heap[n - 1]);
    }
  }

  lemma SameForwarding(h: seq<Item>, h': seq<Item>, oops: seq<Oop>, item: Item)
    requires |h| == |h'| == |oops| && forall j :: 0 <= j < |oops| ==> h'[j].forwarding == h[j].forwarding
    ensures Applied(h', oops, item) == Applied(h, oops, item)
  {
    assert forall v :: Forwarded(h', oops, v) == Forwarded(h, oops, v);
    if HasPointers(item) {
      assert Applied(h', oops, item).slots == Applied(h, oops, item).slots;
    }
  }

  /** The table only gets new names, each with an object of that name; all names of the kind are there. */
  ghost predicate Grown(kind: Kind, s: State, oops: seq<Oop>, n: nat, table: map<Name, Oop>)
    requires |s.heap| == |oops| && n <= |oops|
  {
    && (forall d :: d in s.table ==> d in table && table[d] == s.table[d])
    && (forall j :: 0 <= j < n && NameOf(kind, s.heap[j]).Some? ==> NameOf(kind, s.heap[j]).value in table)
    && (forall d :: d in table && d !in s.table ==>
          exists j :: 0 <= j < n && NameOf(kind, s.heap[j]) == Some(d) && table[d] == oops[j])
  }

  lemma GrownByOne(kind: Kind, s: State, oops: seq<Oop>, n: nat, table: map<Name, Oop>)
    requires |s.heap| == |oops| && n < |oops| && Grown(kind, s, oops, n, table)
    ensures var table' := Added(table, NameOf(kind, s.heap[n]), oops[n]);
            && Grown(kind, s, oops, n + 1, table')
            && Marked(kind, s.heap[n], table', oops[n]) == Marked(kind, s.heap[n], table, oops[n])
            && forall j :: 0 <= j < n ==>
                 Marked(kind, s.heap[j], table', oops[j]) == Marked(kind, s.heap[j], table, oops[j])
  {
    hide NameOf, ForwardedTo;
    var name := NameOf(kind, s.heap[n]);
    var table' := Added(table, name, oops[n]);
    forall d | d in table' && d !in s.table
      ensures exists j :: 0 <= j < n + 1 && NameOf(kind, s.heap[j]) == Some(d) && table'[d] == oops[j]
    {
      if d !in table {
        assert NameOf(kind, s.heap[n]) == Some(d) && table'[d] == oops[n];
      }
    }
  }

  /** The first n objects are forwarded as the table says. */
  ghost predicate MarkedTo(kind: Kind, heap: seq<Item>, oops: seq<Oop>, n: nat, s': State)
    requires |heap| == |s'.heap| == |oops|
  {
    forall j :: 0 <= j < |oops| ==> s'.heap[j] == if j < n then Marked(kind, heap[j], s'.table, oops[j]) else heap[j]
  }

  lemma {:induction false} ForwardPass(kind: Kind, s: State, oops: seq<Oop>, n: nat)
    requires |s.heap| == |oops| && n <= |oops| && (kind.Symbols? ==> NoWideSymbols(s.heap))
    ensures var s' := Iterate(Forward(kind), s, oops, n);
            Grown(kind, s, oops, n, s'.table) && MarkedTo(kind, s.heap, oops, n, s')
  {
    hide Grown, MarkedTo, Visit;
    if n == 0 {
      NothingMarked(kind, s, oops);
    } else {
      ForwardPass(kind, s, oops, n - 1);
      ForwardStep(kind, s, oops, n - 1, Iterate(Forward(kind), s, oops, n - 1));
    }
  }

  lemma NothingMarked(kind: Kind, s: State, oops: seq<Oop>)
    requires |s.heap| == |oops|
    ensures Grown(kind, s, oops, 0, s.table) && MarkedTo(kind, s.heap, oops, 0, s)
  {
  }

  lemma ForwardStep(kind: Kind, s: State, oops: seq<Oop>, n: nat, t: State)
    requires |s.heap| == |t.heap| == |oops| && n < |oops|
    requires Grown(kind, s, oops, n, t.table) && MarkedTo(kind, s.heap, oops, n, t)
    ensures var s' := Visit(Forward(kind), t, oops, n);
            Grown(kind, s, oops, n + 1, s'.table) && MarkedTo(kind, s.heap, oops, n + 1, s')
  {
    GrownByOne(kind, s, oops, n, t.table);
    hide NameOf, Marked, Added, Grown;
  }

  // ---- One phase: forwarding the objects of a kind, then applying it ----

  function Phase(kind: Kind, s: State, oops: seq<Oop>): (s': State)
    requires |s.heap| == |oops|
    ensures |s'.heap| == |oops|
  {
    Iterate(Apply, Iterate(Forward(kind), s, oops, |oops|), oops, |oops|)
  }

  predicate IsPointer(v: Oop) { v % 4 == 0 && v != 0 && v < Bits.WORD64 }

  lemma PointerIsUntagged(v: Oop)
    requires IsPointer(v)
    ensures Untagged(v) == v && v != 0
  {
    UntaggedValue(v);
  }

  /** The objects are at different places, and all oops are pointers. */
  ghost predicate Placed(table: map<Name, Oop>, oops: seq<Oop>) {
    && DistinctOops(oops)
    && (forall i :: 0 <= i < |oops| ==> IsPointer(oops[i]))
    && (forall d :: d in table ==> IsPointer(table[d]))
  }

  /** The object a value points to is not forwarded. */
  ghost predicate Clean(heap: seq<Item>, oops: seq<Oop>, v: Oop)
    requires |heap| == |oops|
  {
    forall i :: 0 <= i < |oops| && oops[i] == v ==> Untagged(heap[i].forwarding) == 0
  }

  ghost predicate AllClean(heap: seq<Item>, oops: seq<Oop>)
    requires |heap| == |oops|
  {
    forall j, k :: 0 <= j < |heap| && 0 <= k < |heap[j].slots| && HasPointers(heap[j]) ==>
      Clean(heap, oops, heap[j].slots[k])
  }

  predicate OfKind(kind: Kind, d: Name) {
    kind.Symbols? == d.SymbolNamed?
  }

  /** No object of the kind was forwarded yet, and none is in the table. */
  ghost predicate Before(kind: Kind, s: State, oops: seq<Oop>)
    requires |s.heap| == |oops|
  {
    && (forall i :: 0 <= i < |oops| && NameOf(kind, s.heap[i]).Some? ==> Untagged(s.heap[i].forwarding) == 0)
    && (forall d :: d in s.table && OfKind(kind, d) ==> s.table[d] !in oops)
    && (kind.Symbols? ==> NoWideSymbols(s.heap))
  }

  /** Where a value points after the phase of a kind, given the table at its end. */
  function Redirect(kind: Kind, heap: seq<Item>, oops: seq<Oop>, table: map<Name, Oop>, v: Oop): Oop
    requires |heap| == |oops|
  {
    var i := IndexOf(oops, v);
    if i.Some? then Target(table, NameOf(kind, heap[i.value]), v) else v
  }

  /** What an item becomes by a phase. */
  ghost predicate Rewritten(kind: Kind, heap: seq<Item>, oops: seq<Oop>, table: map<Name, Oop>, item: Item, item': Item)
    requires |heap| == |oops|
  {
    && item'.header == item.header && |item'.slots| == |item.slots|
    && forall k :: 0 <= k < |item.slots| ==>
         item'.slots[k] == if HasPointers(item) then Redirect(kind, heap, oops, table, item.slots[k]) else item.slots[k]
  }

  lemma GrownStaysPlaced(kind: Kind, s: State, oops: seq<Oop>, table: map<Name, Oop>)
    requires |s.heap| == |oops| && Placed(s.table, oops) && Grown(kind, s, oops, |oops|, table)
    ensures Placed(table, oops)
  {
    hide NameOf, IsPointer;
  }

  lemma ForwardedFromZero(forwarding: Word, target: Oop, self: Oop)
    requires Untagged(forwarding) == 0
    ensures ForwardedTo(forwarding, target, self) == if target != self then target else 0
  {
  }

  /** Applying the forwarding of a clean object redirects a value to the canonical object. */
  lemma ForwardedIsRedirected(kind: Kind, heap: seq<Item>, oops: seq<Oop>, table: map<Name, Oop>,
                              heap': seq<Item>, v: Oop)
    requires |heap| == |heap'| == |oops| && Placed(table, oops) && Clean(heap, oops, v)
    requires forall j :: 0 <= j < |oops| ==> heap'[j] == Marked(kind, heap[j], table, oops[j])
    ensures Forwarded(heap', oops, v) == Redirect(kind, heap, oops, table, v)
  {
    hide NameOf, Untagged, Bits.Or, IsPointer;
    UntaggedZero();
    var i := IndexOf(oops, v);
    if i.Some? {
      var target := Target(table, NameOf(kind, heap[i.value]), v);
      assert IsPointer(target);
      PointerIsUntagged(target);
      ForwardedFromZero(heap[i.value].forwarding, target, v);
    }
  }

  /** The object a clean value is redirected to is not itself forwarded. */
  lemma RedirectedIsClean(kind: Kind, s: State, oops: seq<Oop>, table: map<Name, Oop>, heap': seq<Item>, v: Oop)
    requires |s.heap| == |heap'| == |oops| && Placed(table, oops) && Clean(s.heap, oops, v)
    requires Before(kind, s, oops) && Grown(kind, s, oops, |oops|, table)
    requires forall j :: 0 <= j < |oops| ==> heap'[j].forwarding == Marked(kind, s.heap[j], table, oops[j]).forwarding
    ensures Clean(heap', oops, Redirect(kind, s.heap, oops, table, v))
  {
    hide NameOf, Untagged, Bits.Or, IsPointer;
    UntaggedZero();
    var i := IndexOf(oops, v);
    if i.Some? {
      var name := NameOf(kind, s.heap[i.value]);
      NamesAreOfKind(kind, s.heap[i.value]);
      if name.Some? && name.value !in s.table {
        var j :| 0 <= j < |oops| && NameOf(kind, s.heap[j]) == name && table[name.value] == oops[j];
      }
    }
  }

  lemma UntaggedZero()
    ensures Untagged(0) == 0
  {
    UntaggedValue(0);
  }

  lemma NamesAreOfKind(kind: Kind, item: Item)
    ensures NameOf(kind, item).Some? ==> OfKind(kind, NameOf(kind, item).value)
  {
  }

  lemma PhaseRewrites(kind: Kind, s: State, oops: seq<Oop>)
    requires |s.heap| == |oops| && Placed(s.table, oops) && AllClean(s.heap, oops) && Before(kind, s, oops)
    ensures var s' := Phase(kind, s, oops);
            && Grown(kind, s, oops, |oops|, s'.table) && Placed(s'.table, oops) && AllClean(s'.heap, oops)
            && forall j :: 0 <= j < |oops| ==>
                 && Rewritten(kind, s.heap, oops, s'.table, s.heap[j], s'.heap[j])
                 && s'.heap[j].forwarding == Marked(kind, s.heap[j], s'.table, oops[j]).forwarding
  {
    hide Iterate, Grown, NameOf, Placed, ForwardedTo, FormatOf, Clean, Forwarded, Redirect, Untagged;
    ForwardPass(kind, s, oops, |oops|);
    var t := Iterate(Forward(kind), s, oops, |oops|);
    ApplyPass(t, oops, |oops|);
    var s' := Phase(kind, s, oops);
    GrownStaysPlaced(kind, s, oops, t.table);
    forall j, k | 0 <= j < |oops| && 0 <= k < |s.heap[j].slots| && HasPointers(s.heap[j])
      ensures s'.heap[j].slots[k] == Redirect(kind, s.heap, oops, t.table, s.heap[j].slots[k])
      ensures Clean(s'.heap, oops, s'.heap[j].slots[k])
    {
      var v := s.heap[j].slots[k];
      assert Clean(s.heap, oops, v);
      ForwardedIsRedirected(kind, s.heap, oops, t.table, t.heap, v);
      RedirectedIsClean(kind, s, oops, t.table, s'.heap, v);
    }
  }

  // ---- The whole fix-up ----

  /** What the fix-up expects of a heap that was just loaded. */
  ghost predicate Loaded(s: State, oops: seq<Oop>) {
    |s.heap| == |oops| && Placed(s.table, oops) && New(s, oops)
  }

  /** No object was forwarded yet, none is in a table, and symbols and global variables look like such. */
  ghost predicate New(s: State, oops: seq<Oop>)
    requires |s.heap| == |oops|
  {
    && NoWideSymbols(s.heap)
    && (forall i :: 0 <= i < |oops| ==> Untagged(s.heap[i].forwarding) == 0)
    && (forall i :: 0 <= i < |oops| && IsSymbol(s.heap[i]) ==> !HasPointers(s.heap[i]))
    && (forall i :: 0 <= i < |oops| && IsGlobal(s.heap[i]) ==> HasPointers(s.heap[i]) && |s.heap[i].slots| > 0)
    && (forall d :: d in s.table ==> s.table[d] !in oops)
  }

  /** The key a global variable has once its symbol is interned. */
  function CanonicalKey(heap: seq<Item>, oops: seq<Oop>, table: map<Name, Oop>, item: Item): Oop
    requires |heap| == |oops| && |item.slots| > 0
  {
    Redirect(Symbols, heap, oops, table, item.slots[0])
  }

  /** What an object is known by in the end: a symbol by its bytes, a global variable by its interned key. */
  function CanonicalName(heap: seq<Item>, oops: seq<Oop>, table: map<Name, Oop>, item: Item): Option<Name>
    requires |heap| == |oops|
  {
    if IsSymbol(item) then Some(SymbolNamed(Text(item)))
    else if IsGlobal(item) && |item.slots| > 0 then Some(GlobalNamed(CanonicalKey(heap, oops, table, item)))
    else None
  }

  /** Where a value points after the fix-up: to the interned symbol, or to the one global variable of a key. */
  function Canonical(heap: seq<Item>, oops: seq<Oop>, table: map<Name, Oop>, v: Oop): Oop
    requires |heap| == |oops|
  {
    match IndexOf(oops, v)
    case None => v
    case Some(i) => Target(table, CanonicalName(heap, oops, table, heap[i]), v)
  }

  /** All objects of the heap with a name have it in the table, which has no other new names. */
  ghost predicate Registered(s: State, oops: seq<Oop>, table: map<Name, Oop>)
    requires |s.heap| == |oops|
  {
    && (forall d :: d in s.table ==> d in table && table[d] == s.table[d])
    && (forall j :: 0 <= j < |oops| ==>
          var d := CanonicalName(s.heap, oops, table, s.heap[j]);
          d.Some? ==> d.value in table)
    && (forall d :: d in table && d !in s.table ==>
          exists j :: 0 <= j < |oops| && table[d] == oops[j]
                      && CanonicalName(s.heap, oops, table, s.heap[j]) == Some(d))
  }

  lemma FixUpRegisters(s: State, oops: seq<Oop>, s2: State, table: map<Name, Oop>)
    requires Loaded(s, oops) && |s2.heap| == |oops|
    requires Grown(Symbols, s, oops, |oops|, s2.table) && Grown(Globals, s2, oops, |oops|, table)
    requires forall j :: 0 <= j < |oops| ==> Rewritten(Symbols, s.heap, oops, s2.table, s.heap[j], s2.heap[j])
    ensures Registered(s, oops, table)
  {
    hide Text, Redirect, Grown, Placed;
    forall j | 0 <= j < |oops|
      ensures var d := CanonicalName(s.heap, oops, table, s.heap[j]);
              && (d.Some? ==> d.value in table)
              && d == if IsSymbol(s.heap[j]) then NameOf(Symbols, s.heap[j]) else NameOf(Globals, s2.heap[j])
    {
      NameIsRegistered(s, oops, s2, table, j);
    }
    forall d | d in table && d !in s.table
      ensures exists j :: 0 <= j < |oops| && table[d] == oops[j]
                          && CanonicalName(s.heap, oops, table, s.heap[j]) == Some(d)
    {
      var j := NewNameHasObject(s, oops, s2, table, d);
    }
    OldNamesStay(s, oops, s2, table);
  }

  lemma OldNamesStay(s: State, oops: seq<Oop>, s2: State, table: map<Name, Oop>)
    requires |s.heap| == |s2.heap| == |oops|
    requires Grown(Symbols, s, oops, |oops|, s2.table) && Grown(Globals, s2, oops, |oops|, table)
    ensures forall d :: d in s.table ==> d in table && table[d] == s.table[d]
  {
    hide NameOf;
  }

  /** The name of an object is the one that the pass over its kind looked up. */
  lemma NameIsRegistered(s: State, oops: seq<Oop>, s2: State, table: map<Name, Oop>, j: nat)
    requires Loaded(s, oops) && |s2.heap| == |oops| && j < |oops|
    requires Grown(Symbols, s, oops, |oops|, s2.table) && Grown(Globals, s2, oops, |oops|, table)
    requires forall i :: 0 <= i < |oops| ==> Rewritten(Symbols, s.heap, oops, s2.table, s.heap[i], s2.heap[i])
    ensures var d := CanonicalName(s.heap, oops, table, s.heap[j]);
            && (d.Some? ==> d.value in table)
            && d == if IsSymbol(s.heap[j]) then NameOf(Symbols, s.heap[j]) else NameOf(Globals, s2.heap[j])
  {
    var item := s.heap[j];
    if IsSymbol(item) {
      SymbolIsNoGlobal(s, oops, s2, table, j);
    } else if IsGlobal(item) {
      GlobalIsNamed(s, oops, s2, table, j);
    } else {
      assert Rewritten(Symbols, s.heap, oops, s2.table, item, s2.heap[j]);
    }
  }

  lemma NewNameHasObject(s: State, oops: seq<Oop>, s2: State, table: map<Name, Oop>, d: Name) returns (j: nat)
    requires |s.heap| == |s2.heap| == |oops| && d in table && d !in s.table
    requires Grown(Symbols, s, oops, |oops|, s2.table) && Grown(Globals, s2, oops, |oops|, table)
    requires forall i :: 0 <= i < |oops| ==> s2.heap[i].header == s.heap[i].header
    ensures j < |oops| && table[d] == oops[j]
    ensures Some(d) == if IsSymbol(s.heap[j]) then NameOf(Symbols, s.heap[j]) else NameOf(Globals, s2.heap[j])
  {
    if d in s2.table {
      j :| j < |oops| && NameOf(Symbols, s.heap[j]) == Some(d) && s2.table[d] == oops[j];
    } else {
      j :| j < |oops| && NameOf(Globals, s2.heap[j]) == Some(d) && table[d] == oops[j];
    }
  }

  lemma SymbolPhase(s: State, oops: seq<Oop>)
    requires Loaded(s, oops)
    ensures var s' := Phase(Symbols, s, oops);
            && Grown(Symbols, s, oops, |oops|, s'.table)
            && Placed(s'.table, oops) && AllClean(s'.heap, oops) && Before(Globals, s', oops)
            && forall j :: 0 <= j < |oops| ==>
                 && Rewritten(Symbols, s.heap, oops, s'.table, s.heap[j], s'.heap[j])
                 && s'.heap[j].forwarding == Marked(Symbols, s.heap[j], s'.table, oops[j]).forwarding
  {
    PhaseRewrites(Symbols, s, oops);
    var s' := Phase(Symbols, s, oops);
    hide Phase, Text, IndexOf, Placed, AllClean, Bits.Or;
    forall d | d in s'.table && OfKind(Globals, d) ensures s'.table[d] !in oops {
      assert d in s.table;
    }
    forall i | 0 <= i < |oops| && NameOf(Globals, s'.heap[i]).Some?
      ensures Untagged(s'.heap[i].forwarding) == 0
    {
      assert Rewritten(Symbols, s.heap, oops, s'.table, s.heap[i], s'.heap[i]);
    }
  }

  /** After both phases a value points where Canonical says. */
  lemma RedirectedTwice(s: State, oops: seq<Oop>, s2: State, table: map<Name, Oop>, v: Oop)
    requires Loaded(s, oops) && |s2.heap| == |oops|
    requires Grown(Symbols, s, oops, |oops|, s2.table) && Grown(Globals, s2, oops, |oops|, table)
    requires forall j :: 0 <= j < |oops| ==> Rewritten(Symbols, s.heap, oops, s2.table, s.heap[j], s2.heap[j])
    ensures Redirect(Globals, s2.heap, oops, table, Redirect(Symbols, s.heap, oops, s2.table, v))
         == Canonical(s.heap, oops, table, v)
  {
    var i := IndexOf(oops, v);
    if i.Some? {
      var item, item2 := s.heap[i.value], s2.heap[i.value];
      assert Rewritten(Symbols, s.heap, oops, s2.table, item, item2);
      if IsSymbol(item) {
        SymbolIsNoGlobal(s, oops, s2, table, i.value);
      } else if IsGlobal(item) {
        KeysKept(s, oops, s2.table, table, item.slots[0]);
      }
    }
  }

  lemma KeysKept(s: State, oops: seq<Oop>, table: map<Name, Oop>, table': map<Name, Oop>, v: Oop)
    requires |s.heap| == |oops| && Grown(Symbols, s, oops, |oops|, table)
    requires forall d :: d in table ==> d in table' && table'[d] == table[d]
    ensures Redirect(Symbols, s.heap, oops, table', v) == Redirect(Symbols, s.heap, oops, table, v)
  {
    hide Text;
  }

  lemma SymbolIsNoGlobal(s: State, oops: seq<Oop>, s2: State, table: map<Name, Oop>, i: nat)
    requires Loaded(s, oops) && |s2.heap| == |oops| && i < |oops| && IsSymbol(s.heap[i])
    requires Grown(Symbols, s, oops, |oops|, s2.table) && Grown(Globals, s2, oops, |oops|, table)
    requires forall j :: 0 <= j < |oops| ==> Rewritten(Symbols, s.heap, oops, s2.table, s.heap[j], s2.heap[j])
    ensures var name := SymbolNamed(Text(s.heap[i]));
            && name in s2.table && name in table && table[name] == s2.table[name]
            && Redirect(Globals, s2.heap, oops, table, table[name]) == table[name]
  {
    assert NameOf(Symbols, s.heap[i]).Some?;
    hide Text;
    var name := SymbolNamed(Text(s.heap[i]));
    var m := IndexOf(oops, table[name]);
    if m.Some? {
      var j :| 0 <= j < |oops| && NameOf(Symbols, s.heap[j]) == Some(name) && s2.table[name] == oops[j];
      IndexOfOop(oops, j);
      assert Rewritten(Symbols, s.heap, oops, s2.table, s.heap[j], s2.heap[j]);
    }
  }

  /**
   * The fix-up keeps every object, lets every slot of an object with pointers point to the canonical object, and
   * adds to the tables exactly the names of the objects that were not known.
   */
  lemma FixUpIsRewriting(s: State, oops: seq<Oop>)
    requires Loaded(s, oops)
    ensures var s' := FixUp(s, oops);
            && Registered(s, oops, s'.table)
            && forall j :: 0 <= j < |oops| ==>
                 && s'.heap[j].header == s.heap[j].header && |s'.heap[j].slots| == |s.heap[j].slots|
                 && forall k :: 0 <= k < |s.heap[j].slots| ==>
                      s'.heap[j].slots[k] == if 9 <= FormatOf(s.heap[j].header) < 24
                                             then s.heap[j].slots[k]
                                             else Canonical(s.heap, oops, s'.table, s.heap[j].slots[k])
  {
    SymbolPhase(s, oops);
    var s2 := Phase(Symbols, s, oops);
    PhaseRewrites(Globals, s2, oops);
    var s' := Phase(Globals, s2, oops);
    assert s' == FixUp(s, oops);
    FixUpRegisters(s, oops, s2, s'.table);
    forall j, k | 0 <= j < |oops| && 0 <= k < |s.heap[j].slots| && HasPointers(s.heap[j])
      ensures s'.heap[j].slots[k] == Canonical(s.heap, oops, s'.table, s.heap[j].slots[k])
    {
      RedirectedTwice(s, oops, s2, s'.table, s.heap[j].slots[k]);
      assert Rewritten(Symbols, s.heap, oops, s2.table, s.heap[j], s2.heap[j]);
      assert Rewritten(Globals, s2.heap, oops, s'.table, s2.heap[j], s'.heap[j]);
    }
    hide Phase, FixUp, Canonical, Redirect, AllClean, Placed, Before, Loaded, IsSymbol, IsGlobal, FormatOf;
    assert forall item :: HasPointers(item) <==> !(9 <= FormatOf(item.header) < 24);
    forall j | 0 <= j < |oops|
      ensures s'.heap[j].header == s.heap[j].header && |s'.heap[j].slots| == |s.heap[j].slots|
      ensures !HasPointers(s.heap[j]) ==> s'.heap[j].slots == s.heap[j].slots
    {
      assert Rewritten(Symbols, s.heap, oops, s2.table, s.heap[j], s2.heap[j]);
      assert Rewritten(Globals, s2.heap, oops, s'.table, s2.heap[j], s'.heap[j]);
    }
  }

  /** Which slots a pass that applies forwarding may change, by the format in the header. */
  lemma AppliedByFormat(heap: seq<Item>, oops: seq<Oop>, item: Item)
    requires |heap| == |oops|
    ensures var item' := Applied(heap, oops, item);
            && item'.header == item.header && |item'.slots| == |item.slots|
            && forall k :: 0 <= k < |item.slots| ==>
                 item'.slots[k] == if 9 <= FormatOf(item.header) < 24 then item.slots[k]
                                   else Forwarded(heap, oops, item.slots[k])
  {
  }

  /**
   * An object made with a class format is rewritten exactly when it was made with slots of nil, apart from objects
   * of 32-bit elements, whose padding makes some of them look like objects with pointers.
   */
  lemma NewObjectsAreRewritten(item: Item, format: nat, fixedSlots: nat, n: nat)
    requires IsClassFormat(format)
    requires FormatOf(item.header) == ObjectSizes.BasicNew(format, fixedSlots, n).objectFormat
    ensures HasPointers(item) <==> format < 9 || (format == 10 && 2 <= n % 8 <= 5)
  {
    if format == INDEXABLE_32 {
      assert ExtraSlots(INDEXABLE_32, n) == n + 1;
      Padding32(n);
      hide FormatOf;
      assert FormatOf(item.header) == (18 + 4 * (n % 8)) % 32;
    } else {
      FormatsOfClasses(format, fixedSlots, n);
    }
  }

  lemma FormatsOfClasses(format: nat, fixedSlots: nat, n: nat)
    requires IsClassFormat(format) && format != INDEXABLE_32
    ensures var f := ObjectSizes.BasicNew(format, fixedSlots, n).objectFormat;
            if format <= INDEXABLE_64 then f == format else INDEXABLE_16 <= f < MIXED_OBJECT
  {
  }

  // ---- Canonical objects ----

  ghost predicate Injective(kind: Kind, table: map<Name, Oop>) {
    forall d, e :: d in table && e in table && OfKind(kind, d) && OfKind(kind, e) && table[d] == table[e] ==> d == e
  }

  /** A table that tells names apart still does after a pass that adds objects to it. */
  lemma GrownStaysInjective(kind: Kind, s: State, oops: seq<Oop>, table: map<Name, Oop>)
    requires |s.heap| == |oops| && DistinctOops(oops) && Before(kind, s, oops)
    requires Grown(kind, s, oops, |oops|, table) && Injective(kind, s.table)
    ensures Injective(kind, table)
  {
    hide NameOf;
  }

  lemma OtherKindStaysInjective(s: State, oops: seq<Oop>, table: map<Name, Oop>)
    requires |s.heap| == |oops| && Grown(Symbols, s, oops, |oops|, table) && Injective(Globals, s.table)
    ensures Injective(Globals, table)
  {
    hide Text;
  }

  /** After the fix-up two references to symbols are the same exactly when the bytes of the symbols are. */
  lemma SymbolsAreUnified(s: State, oops: seq<Oop>, i: nat, j: nat)
    requires Loaded(s, oops) && Injective(Symbols, s.table)
    requires i < |oops| && j < |oops| && IsSymbol(s.heap[i]) && IsSymbol(s.heap[j])
    ensures var table := FixUp(s, oops).table;
            (Canonical(s.heap, oops, table, oops[i]) == Canonical(s.heap, oops, table, oops[j])
             <==> Text(s.heap[i]) == Text(s.heap[j]))
  {
    SymbolPhase(s, oops);
    var s2 := Phase(Symbols, s, oops);
    PhaseRewrites(Globals, s2, oops);
    GrownStaysInjective(Symbols, s, oops, s2.table);
    IndexOfOop(oops, i);
    IndexOfOop(oops, j);
    assert NameOf(Symbols, s.heap[i]).Some? && NameOf(Symbols, s.heap[j]).Some?;
    assert OfKind(Symbols, SymbolNamed(Text(s.heap[i]))) && OfKind(Symbols, SymbolNamed(Text(s.heap[j])));
    hide Phase, Text;
  }

  /** Two references to global variables are the same exactly when their keys are, once these are interned. */
  lemma GlobalsAreUnified(s: State, oops: seq<Oop>, i: nat, j: nat)
    requires Loaded(s, oops) && Injective(Globals, s.table)
    requires i < |oops| && j < |oops| && IsGlobal(s.heap[i]) && IsGlobal(s.heap[j])
    ensures var table := FixUp(s, oops).table;
            (Canonical(s.heap, oops, table, oops[i]) == Canonical(s.heap, oops, table, oops[j])
             <==> CanonicalKey(s.heap, oops, table, s.heap[i]) == CanonicalKey(s.heap, oops, table, s.heap[j]))
  {
    hide Text, Redirect, Grown, NameOf, AllClean, Before, CanonicalKey, Canonical;
    SymbolPhase(s, oops);
    var s2 := Phase(Symbols, s, oops);
    PhaseRewrites(Globals, s2, oops);
    var table := Phase(Globals, s2, oops).table;
    OtherKindStaysInjective(s, oops, s2.table);
    GrownStaysInjective(Globals, s2, oops, table);
    GlobalIsNamed(s, oops, s2, table, i);
    GlobalIsNamed(s, oops, s2, table, j);
  }

  lemma GlobalIsNamed(s: State, oops: seq<Oop>, s2: State, table: map<Name, Oop>, i: nat)
    requires Loaded(s, oops) && |s2.heap| == |oops| && i < |oops| && IsGlobal(s.heap[i])
    requires Grown(Symbols, s, oops, |oops|, s2.table) && Grown(Globals, s2, oops, |oops|, table)
    requires forall j :: 0 <= j < |oops| ==> Rewritten(Symbols, s.heap, oops, s2.table, s.heap[j], s2.heap[j])
    ensures var name := GlobalNamed(CanonicalKey(s.heap, oops, table, s.heap[i]));
            && NameOf(Globals, s2.heap[i]) == Some(name) && OfKind(Globals, name)
            && name in table && Canonical(s.heap, oops, table, oops[i]) == table[name]
  {
    IndexOfOop(oops, i);
    assert Rewritten(Symbols, s.heap, oops, s2.table, s.heap[i], s2.heap[i]);
    KeysKept(s, oops, s2.table, table, s.heap[i].slots[0]);
    assert NameOf(Globals, s2.heap[i]).Some?;
    hide Redirect, Text;
  }

  // ---- A second run ----

  /** Nothing is left to forward or to add for the objects of a kind. */
  ghost predicate Settled(kind: Kind, s: State, oops: seq<Oop>) {
    && |s.heap| == |oops|
    && forall i :: 0 <= i < |oops| ==> ItemSettled(kind, s.heap[i], s.table, oops[i])
  }

  lemma {:induction false} SettledPass(kind: Kind, s: State, oops: seq<Oop>, n: nat)
    requires Settled(kind, s, oops) && n <= |oops|
    ensures Iterate(Forward(kind), s, oops, n) == s
  {
    hide NameOf, Marked;
    if n > 0 {
      SettledPass(kind, s, oops, n - 1);
      var name := NameOf(kind, s.heap[n - 1]);
      if name.Some? {
        assert s.table[name.value := s.table[name.value]] == s.table;
      }
      assert s.heap[n - 1 := s.heap[n - 1]] == s.heap;
    }
  }

  lemma CleanApplied(heap: seq<Item>, oops: seq<Oop>, item: Item)
    requires |heap| == |oops|
    requires HasPointers(item) ==> forall k :: 0 <= k < |item.slots| ==> Clean(heap, oops, item.slots[k])
    ensures Applied(heap, oops, item) == item
  {
    if HasPointers(item) {
      assert Applied(heap, oops, item).slots == item.slots;
    }
  }

  lemma {:induction false} CleanPass(s: State, oops: seq<Oop>, n: nat)
    requires |s.heap| == |oops| && AllClean(s.heap, oops) && n <= |oops|
    ensures Iterate(Apply, s, oops, n) == s
  {
    if n > 0 {
      CleanPass(s, oops, n - 1);
      CleanApplied(s.heap, oops, s.heap[n - 1]);
      assert s.heap[n - 1 := s.heap[n - 1]] == s.heap;
    }
  }

  /** Forwarding to the same object twice is forwarding to it once. */
  lemma ForwardedOnce(forwarding: Word, target: Oop, self: Oop)
    requires Untagged(forwarding) == 0 && IsPointer(target)
    ensures var w := ForwardedTo(forwarding, target, self);
            ForwardedTo(w, target, self) == w && ForwardedTo(w, self, self) == w
  {
    hide Untagged, Bits.Or, IsPointer;
    ForwardedFromZero(forwarding, target, self);
    UntaggedZero();
    PointerIsUntagged(target);
    Bits.OrIdempotent(target);
  }

  /** A settled object is left as it is, and its name is in the table. */
  ghost predicate ItemSettled(kind: Kind, item: Item, table: map<Name, Oop>, self: Oop) {
    && Marked(kind, item, table, self) == item
    && (NameOf(kind, item).Some? ==> NameOf(kind, item).value in table)
  }

  /**
   * Looking a global variable up again, by the key it has now, finds it or what it is forwarded to.  A forwarding
   * word takes the bits of another object without losing those it has, so it may also stay for another reason.
   */
  ghost predicate KeySettles(s: State, oops: seq<Oop>, table: map<Name, Oop>, i: nat)
    requires |s.heap| == |oops| && i < |oops| && |s.heap[i].slots| > 0
  {
    var used := GlobalNamed(CanonicalKey(s.heap, oops, table, s.heap[i]));
    var now := GlobalNamed(Canonical(s.heap, oops, table, s.heap[i].slots[0]));
    && used in table && now in table
    && (table[now] == oops[i] || (table[used] != oops[i] && Bits.Or(table[used], table[now]) == table[used]))
  }

  ghost predicate KeysSettle(s: State, oops: seq<Oop>)
    requires Loaded(s, oops)
  {
    forall i :: 0 <= i < |oops| && IsGlobal(s.heap[i]) ==> KeySettles(s, oops, FixUp(s, oops).table, i)
  }

  /** The heap after both phases, with what these did to one object. */
  ghost predicate Fixed(s: State, oops: seq<Oop>, s2: State, s': State, i: nat) {
    && Loaded(s, oops) && |s2.heap| == |s'.heap| == |oops| && i < |oops|
    && Placed(s2.table, oops) && Placed(s'.table, oops)
    && Grown(Symbols, s, oops, |oops|, s2.table) && Grown(Globals, s2, oops, |oops|, s'.table)
    && (forall j :: 0 <= j < |oops| ==> Rewritten(Symbols, s.heap, oops, s2.table, s.heap[j], s2.heap[j]))
    && Rewritten(Globals, s2.heap, oops, s'.table, s2.heap[i], s'.heap[i])
    && s2.heap[i].forwarding == Marked(Symbols, s.heap[i], s2.table, oops[i]).forwarding
    && s'.heap[i].forwarding == Marked(Globals, s2.heap[i], s'.table, oops[i]).forwarding
  }

  lemma SymbolSettles(s: State, oops: seq<Oop>, s2: State, s': State, i: nat)
    requires Fixed(s, oops, s2, s', i) && IsSymbol(s.heap[i])
    ensures ItemSettled(Symbols, s'.heap[i], s'.table, oops[i]) && ItemSettled(Globals, s'.heap[i], s'.table, oops[i])
  {
    hide Text, Redirect, ForwardedTo, Untagged, IsPointer;
    var item, item2, item' := s.heap[i], s2.heap[i], s'.heap[i];
    assert Rewritten(Symbols, s.heap, oops, s2.table, item, item2);
    assert item'.slots == item.slots;
    SameText(item, item');
    assert NameOf(Symbols, item).Some? && NameOf(Symbols, item') == NameOf(Symbols, item);
    ForwardedOnce(item.forwarding, oops[i], oops[i]);
    ForwardedOnce(item.forwarding, Target(s2.table, NameOf(Symbols, item), oops[i]), oops[i]);
  }

  lemma SameText(item: Item, item': Item)
    requires item'.header == item.header && item'.slots == item.slots
    ensures Text(item') == Text(item)
  {
  }

  lemma OtherSettles(s: State, oops: seq<Oop>, s2: State, s': State, i: nat)
    requires Fixed(s, oops, s2, s', i) && !IsSymbol(s.heap[i]) && !IsGlobal(s.heap[i])
    ensures ItemSettled(Symbols, s'.heap[i], s'.table, oops[i]) && ItemSettled(Globals, s'.heap[i], s'.table, oops[i])
  {
    hide Text, Redirect, ForwardedTo, Untagged, IsPointer;
    assert Rewritten(Symbols, s.heap, oops, s2.table, s.heap[i], s2.heap[i]);
    ForwardedOnce(s.heap[i].forwarding, oops[i], oops[i]);
  }

  lemma GlobalSettles(s: State, oops: seq<Oop>, s2: State, s': State, i: nat)
    requires Fixed(s, oops, s2, s', i) && IsGlobal(s.heap[i])
    ensures ItemSettled(Symbols, s'.heap[i], s'.table, oops[i])
    ensures ItemSettled(Globals, s'.heap[i], s'.table, oops[i]) <==> KeySettles(s, oops, s'.table, i)
  {
    hide Text, Redirect, ForwardedTo, Untagged, IsPointer, Canonical, CanonicalKey, Bits.Or;
    var item, item2, item', self := s.heap[i], s2.heap[i], s'.heap[i], oops[i];
    assert Rewritten(Symbols, s.heap, oops, s2.table, item, item2);
    GlobalIsNamed(s, oops, s2, s'.table, i);
    RedirectedTwice(s, oops, s2, s'.table, item.slots[0]);
    var used := GlobalNamed(CanonicalKey(s.heap, oops, s'.table, item));
    var now := GlobalNamed(Canonical(s.heap, oops, s'.table, item.slots[0]));
    assert NameOf(Globals, item2) == Some(used) && NameOf(Globals, item') == Some(now);
    ForwardedOnce(item.forwarding, self, self);
    ForwardedFromZero(item.forwarding, self, self);
    UntaggedZero();
    ForwardedOnce(item2.forwarding, s'.table[used], self);
    if now in s'.table {
      ForwardedAgain(item2.forwarding, s'.table[used], s'.table[now], self);
    }
  }

  /** When forwarding to another object leaves a forwarding word as it is. */
  lemma ForwardedAgain(forwarding: Word, target: Oop, next: Oop, self: Oop)
    requires Untagged(forwarding) == 0 && IsPointer(target) && IsPointer(next)
    ensures var w := ForwardedTo(forwarding, target, self);
            ForwardedTo(w, next, self) == w <==> next == self || (target != self && Bits.Or(target, next) == target)
  {
    hide Untagged, IsPointer;
    ForwardedFromZero(forwarding, target, self);
    UntaggedZero();
    PointerIsUntagged(target);
    PointerIsUntagged(next);
    assert Bits.Or(0, next) == next;
  }

  /** After the fix-up all is settled, but for the global variables whose keys do not settle. */
  lemma SettledFixUp(s: State, oops: seq<Oop>)
    requires Loaded(s, oops)
    ensures var s' := FixUp(s, oops);
            && Settled(Symbols, s', oops) && AllClean(s'.heap, oops)
            && (Settled(Globals, s', oops) <==> KeysSettle(s, oops))
  {
    SymbolPhase(s, oops);
    var s2 := Phase(Symbols, s, oops);
    PhaseRewrites(Globals, s2, oops);
    var s' := Phase(Globals, s2, oops);
    assert s' == FixUp(s, oops);
    hide Phase, FixUp, Marked, NameOf, Redirect, AllClean, Placed, Grown, KeySettles;
    forall i | 0 <= i < |oops|
      ensures ItemSettled(Symbols, s'.heap[i], s'.table, oops[i])
      ensures ItemSettled(Globals, s'.heap[i], s'.table, oops[i])
         <==> (IsGlobal(s.heap[i]) ==> KeySettles(s, oops, s'.table, i))
    {
      assert Fixed(s, oops, s2, s', i);
      if IsSymbol(s.heap[i]) {
        SymbolSettles(s, oops, s2, s', i);
      } else if IsGlobal(s.heap[i]) {
        GlobalSettles(s, oops, s2, s', i);
      } else {
        OtherSettles(s, oops, s2, s', i);
      }
    }
  }

  /** A fix-up of a heap where symbols are settled and nothing is forwarded changes nothing if globals are settled. */
  lemma UnchangedWhenSettled(s: State, oops: seq<Oop>)
    requires Settled(Symbols, s, oops) && AllClean(s.heap, oops) && NoWideSymbols(s.heap)
    ensures FixUp(s, oops) == s <==> Settled(Globals, s, oops)
  {
    hide Iterate, Marked, NameOf;
    SettledPass(Symbols, s, oops, |oops|);
    CleanPass(s, oops, |oops|);
    var s3 := Iterate(Forward(Globals), s, oops, |oops|);
    ForwardPass(Globals, s, oops, |oops|);
    ApplyPass(s3, oops, |oops|);
    if Settled(Globals, s, oops) {
      SettledPass(Globals, s, oops, |oops|);
    } else if FixUp(s, oops) == s {
      forall i | 0 <= i < |oops| ensures ItemSettled(Globals, s.heap[i], s.table, oops[i]) {
        assert s3.heap[i] == Marked(Globals, s.heap[i], s3.table, oops[i]);
        MarkedOnlyForwards(Globals, s.heap[i], s3.table, oops[i]);
        AppliedKeepsForwarding(s3.heap, oops, s3.heap[i]);
      }
    }
  }

  lemma MarkedOnlyForwards(kind: Kind, item: Item, table: map<Name, Oop>, self: Oop)
    ensures Marked(kind, item, table, self) == item.(forwarding := Marked(kind, item, table, self).forwarding)
  {
  }

  lemma AppliedKeepsForwarding(heap: seq<Item>, oops: seq<Oop>, item: Item)
    requires |heap| == |oops|
    ensures Applied(heap, oops, item).forwarding == item.forwarding
  {
  }

  lemma {:induction false} HeadersStay(pass: Pass, s: State, oops: seq<Oop>, n: nat)
    requires |s.heap| == |oops| && n <= |oops|
    ensures forall i :: 0 <= i < |oops| ==> Iterate(pass, s, oops, n).heap[i].header == s.heap[i].header
  {
    hide NameOf, ForwardedTo, Forwarded;
    if n > 0 {
      HeadersStay(pass, s, oops, n - 1);
    }
  }

  lemma FixUpKeepsHeaders(s: State, oops: seq<Oop>)
    requires |s.heap| == |oops|
    ensures forall i :: 0 <= i < |oops| ==> FixUp(s, oops).heap[i].header == s.heap[i].header
    ensures NoWideSymbols(s.heap) ==> NoWideSymbols(FixUp(s, oops).heap)
  {
    hide Iterate;
    var n := |oops|;
    var s1 := Iterate(Forward(Symbols), s, oops, n);
    var s2 := Iterate(Apply, s1, oops, n);
    HeadersStay(Forward(Symbols), s, oops, n);
    HeadersStay(Apply, s1, oops, n);
    HeadersStay(Forward(Globals), s2, oops, n);
    HeadersStay(Apply, Iterate(Forward(Globals), s2, oops, n), oops, n);
  }

  /** A second fix-up changes no slot, no forwarding word and no table exactly when the keys of the globals settle. */
  lemma SecondRunExactly(s: State, oops: seq<Oop>)
    requires Loaded(s, oops)
    ensures FixUp(FixUp(s, oops), oops) == FixUp(s, oops) <==> KeysSettle(s, oops)
  {
    hide FixUp, Settled, AllClean, KeysSettle;
    SettledFixUp(s, oops);
    FixUpKeepsHeaders(s, oops);
    UnchangedWhenSettled(FixUp(s, oops), oops);
  }

  /** The keys of the global variables are symbols, or at least no global variables of the same heap. */
  ghost predicate KeysAreNoGlobals(s: State, oops: seq<Oop>)
    requires Loaded(s, oops)
  {
    forall i, m :: 0 <= i < |oops| && 0 <= m < |oops| && IsGlobal(s.heap[i]) && IsGlobal(s.heap[m]) ==>
      s.heap[i].slots[0] != oops[m]
  }

  /** Such keys are not redirected any more once they are interned. */
  lemma KeyStays(s: State, oops: seq<Oop>, i: nat)
    requires Loaded(s, oops) && KeysAreNoGlobals(s, oops) && i < |oops| && IsGlobal(s.heap[i])
    ensures KeySettles(s, oops, FixUp(s, oops).table, i)
  {
    SymbolPhase(s, oops);
    var s2 := Phase(Symbols, s, oops);
    PhaseRewrites(Globals, s2, oops);
    var table := FixUp(s, oops).table;
    hide FixUp, Phase, Text, Placed;
    GlobalIsNamed(s, oops, s2, table, i);
    Bits.OrIdempotent(table[GlobalNamed(CanonicalKey(s.heap, oops, table, s.heap[i]))]);
  }

  /** With symbols as keys a second fix-up changes nothing. */
  lemma SecondRunChangesNothing(s: State, oops: seq<Oop>)
    requires Loaded(s, oops) && KeysAreNoGlobals(s, oops)
    ensures FixUp(FixUp(s, oops), oops) == FixUp(s, oops)
    ensures Settled(Symbols, FixUp(s, oops), oops) && Settled(Globals, FixUp(s, oops), oops)
    ensures AllClean(FixUp(s, oops).heap, oops)
  {
    hide FixUp, Settled, AllClean, KeySettles, KeysAreNoGlobals;
    forall i | 0 <= i < |oops| && IsGlobal(s.heap[i]) ensures KeySettles(s, oops, FixUp(s, oops).table, i) {
      KeyStays(s, oops, i);
    }
    SettledFixUp(s, oops);
    SecondRunExactly(s, oops);
  }

  // ---- What the bytes of a symbol are ----

  /** A word of eight bytes, the low one first. */
  ghost predicate IsWordOf(w: Word, b: seq<nat>)
    requires |b| == 8
  {
    w == b[0] + b[1] * 0x100 + b[2] * 0x1_0000 + b[3] * 0x100_0000 + b[4] * 0x1_0000_0000
         + b[5] * 0x100_0000_0000 + b[6] * 0x1_0000_0000_0000 + b[7] * 0x100_0000_0000_0000
  }

  /** The slots hold these bytes, eight in each. */
  ghost predicate StoresBytes(slots: seq<Word>, d: seq<nat>) {
    && |d| == 8 * |slots| && (forall k :: 0 <= k < |d| ==> d[k] < 256)
    && forall q :: 0 <= q < |slots| ==> IsWordOf(slots[q], d[8 * q..8 * q + 8])
  }

  /** An object has the format and the slots of a new one with so many bytes, and these bytes in it. */
  ghost predicate StoresText(item: Item, data: seq<nat>, padding: seq<nat>) {
    var s := ObjectSizes.BasicNew(INDEXABLE_8, 0, |data|);
    && FormatOf(item.header) == s.objectFormat && |item.slots| == s.slotCount < BIG
    && StoresBytes(item.slots, data + padding)
  }

  ghost function LowByteFirst(b: seq<nat>): nat {
    if b == [] then 0 else b[0] + 0x100 * LowByteFirst(b[1..])
  }

  lemma WordIsLowByteFirst(w: Word, b: seq<nat>)
    requires |b| == 8 && IsWordOf(w, b)
    ensures w == LowByteFirst(b)
  {
    assert b[0..] == b && b[8..] == [];
    NextByte(b, 0);
    NextByte(b, 1);
    NextByte(b, 2);
    NextByte(b, 3);
    NextByte(b, 4);
    NextByte(b, 5);
    NextByte(b, 6);
    NextByte(b, 7);
  }

  lemma NextByte(b: seq<nat>, i: nat)
    requires i < |b|
    ensures LowByteFirst(b[i..]) == b[i] + 0x100 * LowByteFirst(b[i + 1..])
  {
    assert b[i..][1..] == b[i + 1..];
  }

  lemma {:induction false} ByteOfWord(b: seq<nat>, j: nat)
    requires j < |b| && forall k :: 0 <= k < |b| ==> b[k] < 256
    ensures LowByteFirst(b) / Bits.Pow2(8 * j) % 256 == b[j]
    decreases j
  {
    var rest := LowByteFirst(b[1..]);
    if j == 0 {
      assert Bits.Pow2(0) == 1;
      Bits.DivModUnique(LowByteFirst(b), 256, rest, b[0]);
    } else {
      var p := Bits.Pow2(8 * (j - 1));
      Bits.Pow2Sum(8, 8 * (j - 1));
      assert Bits.Pow2(8) == 256;
      DropByte(rest, b[0], p);
      ByteOfWord(b[1..], j - 1);
    }
  }

  lemma DropByte(rest: nat, low: nat, p: nat)
    requires p > 0 && low < 256
    ensures (low + 0x100 * rest) / (256 * p) == rest / p
  {
    var q, r := rest / p, rest % p;
    assert low + 0x100 * rest == q * (256 * p) + (256 * r + low) by {
      assert rest == q * p + r;
      assert 256 * (q * p) == q * (256 * p);
    }
    Bits.DivModUnique(low + 0x100 * rest, 256 * p, q, 256 * r + low);
  }

  lemma ByteIsStored(slots: seq<Word>, d: seq<nat>, k: nat)
    requires StoresBytes(slots, d) && k < |d|
    ensures ByteAt(slots, k) == d[k]
  {
    var q, j := k / 8, k % 8;
    assert k == 8 * q + j && q < |slots|;
    var b := d[8 * q..8 * q + 8];
    assert forall i :: 0 <= i < 8 ==> b[i] == d[8 * q + i];
    WordIsLowByteFirst(slots[q], b);
    ByteOfWord(b, j);
  }

  /** The bytes of a text are the ones stored in it, without the padding. */
  lemma TextIsStored(item: Item, data: seq<nat>, padding: seq<nat>)
    requires StoresText(item, data, padding)
    ensures Text(item) == data
  {
    Size8(0, |data|);
    assert Sized(FormatOf(item.header), |item.slots|, 0) == ObjectSizes.BasicNew(INDEXABLE_8, 0, |data|);
    hide ObjectSizes.BasicNew, BasicSize, ByteAt, StoresBytes;
    forall k | 0 <= k < |data| ensures ByteAt(item.slots, k) == data[k] {
      ByteIsStored(item.slots, data + padding, k);
    }
  }

  /** So two references to byte symbols end up the same exactly when the symbols are of the same bytes. */
  lemma SymbolsOfBytesAreUnified(s: State, oops: seq<Oop>, i: nat, j: nat,
                                 data: seq<nat>, padding: seq<nat>, data': seq<nat>, padding': seq<nat>)
    requires Loaded(s, oops) && Injective(Symbols, s.table) && i < |oops| && j < |oops|
    requires ClassIndexOf(s.heap[i].header) == ClassIndexOf(s.heap[j].header) == 173
    requires StoresText(s.heap[i], data, padding) && StoresText(s.heap[j], data', padding')
    ensures var table := FixUp(s, oops).table;
            (Canonical(s.heap, oops, table, oops[i]) == Canonical(s.heap, oops, table, oops[j]) <==> data == data')
  {
    hide StoresText, FixUp, Text, Canonical;
    TextIsStored(s.heap[i], data, padding);
    TextIsStored(s.heap[j], data', padding');
    SymbolsAreUnified(s, oops, i, j);
  }

  /** And two references to global variables, exactly when their keys are symbols of the same bytes. */
  lemma GlobalsOfBytesAreUnified(s: State, oops: seq<Oop>, i: nat, j: nat, a: nat, b: nat,
                                 data: seq<nat>, padding: seq<nat>, data': seq<nat>, padding': seq<nat>)
    requires Loaded(s, oops) && Injective(Symbols, s.table) && Injective(Globals, s.table)
    requires i < |oops| && j < |oops| && a < |oops| && b < |oops|
    requires ClassIndexOf(s.heap[i].header) == ClassIndexOf(s.heap[j].header) == 194
    requires s.heap[i].slots[0] == oops[a] && s.heap[j].slots[0] == oops[b]
    requires ClassIndexOf(s.heap[a].header) == ClassIndexOf(s.heap[b].header) == 173
    requires StoresText(s.heap[a], data, padding) && StoresText(s.heap[b], data', padding')
    ensures var table := FixUp(s, oops).table;
            (Canonical(s.heap, oops, table, oops[i]) == Canonical(s.heap, oops, table, oops[j]) <==> data == data')
  {
    hide StoresText, FixUp, Text, Canonical, CanonicalKey;
    GlobalsAreUnified(s, oops, i, j);
    SymbolsOfBytesAreUnified(s, oops, a, b, data, padding, data', padding');
    KeyIsCanonicalSymbol(s, oops, FixUp(s, oops).table, i, a);
    KeyIsCanonicalSymbol(s, oops, FixUp(s, oops).table, j, b);
  }

  lemma KeyIsCanonicalSymbol(s: State, oops: seq<Oop>, table: map<Name, Oop>, i: nat, a: nat)
    requires Loaded(s, oops) && i < |oops| && a < |oops| && IsGlobal(s.heap[i]) && IsSymbol(s.heap[a])
    requires s.heap[i].slots[0] == oops[a]
    ensures CanonicalKey(s.heap, oops, table, s.heap[i]) == Canonical(s.heap, oops, table, oops[a])
  {
    hide Text;
    IndexOfOop(oops, a);
  }
}
