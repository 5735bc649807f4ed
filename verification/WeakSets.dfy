/**
 * WeakSet: an array of elements in which a flag object marks the empty slots.  The set asks its equality
 * function whether a queried object equals a stored element, never the other way round.
 */
module WeakSets {
  import opened Probing

  /** The functions one set is used with, and the objects it is asked for and may hold. */
  datatype Comparing<!K> = Comparing(hash: K -> nat, equals: (K, K) -> bool, query: K -> bool, storable: K -> bool)

  /** What lookups rest on.  Equality need not be symmetric between a query and a stored element. */
  ghost predicate Lawful<K(!new)>(c: Comparing<K>) {
    && (forall e :: c.storable(e) ==> c.query(e) && c.equals(e, e))
    && (forall q, e :: c.query(q) && c.storable(e) && c.equals(q, e) ==> c.hash(q) == c.hash(e))
    && (forall q, d, e :: c.query(q) && c.storable(d) && c.storable(e) && c.equals(q, d)
          ==> (c.equals(q, e) <==> c.equals(d, e)))
  }

  type LawfulComparing<!K(!new)> = c: Comparing<K> | Lawful(c)
    witness Comparing((k: K) => 0, (a: K, b: K) => true, (k: K) => true, (k: K) => true)

  /** All the functions can tell about a queried object: the elements it may equal, and its hash. */
  ghost function KeyOf<K(!new)>(c: Comparing<K>, q: K): Key<iset<K>> {
    Key((iset e | c.storable(e) && c.equals(q, e)), c.hash(q))
  }

  lemma KeysDecideEquality<K(!new)>(c: LawfulComparing<K>, q: K, e: K)
    requires c.query(q) && c.storable(e)
    ensures KeyOf(c, q) == KeyOf(c, e) <==> c.equals(q, e)
  {
    var kq, ke := KeyOf(c, q), KeyOf(c, e);
    assert e in ke.cls;
    if c.equals(q, e) {
      assert kq.cls == ke.cls;
    }
  }

  ghost function TableOf<K(!new)>(c: Comparing<K>, flag: K, s: seq<K>): (t: Table<iset<K>>)
    ensures |t| == |s|
    ensures forall i :: 0 <= i < |s| ==> t[i] == if s[i] == flag then None else Some(KeyOf(c, s[i]))
  {
    seq(|s|, i requires 0 <= i < |s| => if s[i] == flag then None else Some(KeyOf(c, s[i])))
  }

  /** Writing an element to the slot where its scan ended. */
  lemma StoreElement<K(!new)>(c: Comparing<K>, flag: K, s: seq<K>, index: int, item: K)
    requires item != flag
    requires var t := TableOf(c, flag, s);
             WellFormed(t) && Used(t) < |s| && Scanned(t, KeyOf(c, item), index)
    ensures 0 <= index < |s|
    ensures var t, k := TableOf(c, flag, s), KeyOf(c, item);
            var t' := TableOf(c, flag, s[index := item]);
            && WellFormed(t')
            && Image(t', s[index := item]) == Image(t, s)[k := item]
            && Used(t') == Used(t) + (if s[index] == flag then 1 else 0) <= |s|
            && (k in Image(t, s) <==> s[index] != flag)
            && (k in Image(t, s) ==> Image(t, s)[k] == s[index])
  {
    var t, k := TableOf(c, flag, s), KeyOf(c, item);
    Store(t, s, k, index, item);
    assert TableOf(c, flag, s[index := item]) == t[index := Some(k)];
  }

  class WeakSet<K(!new, ==)> {
    const comparing: LawfulComparing<K>
    const flag: K
    var tally: nat
    var slots: array<K>

    ghost function View(): (t: Table<iset<K>>)
      reads this, slots
      ensures |t| == slots.Length
    {
      TableOf(comparing, flag, slots[..])
    }

    /** Everything but the load bound.  The tally may count a replaced element twice. */
    ghost predicate Indexed()
      reads this, slots
    {
      && !comparing.storable(flag)
      && (forall i :: 0 <= i < slots.Length && slots[i] != flag ==> comparing.storable(slots[i]))
      && WellFormed(View())
      && Used(View()) <= tally
    }

    ghost predicate Valid()
      reads this, slots
    {
      && Indexed()
      && tally <= slots.Length
      && (if slots.Length < 4 then tally == 0 else !FullCondition(slots.Length, tally))
    }

    /** The set of elements, each under all that a query can tell about it. */
    ghost function Elements(): map<Key<iset<K>>, K>
      requires Indexed()
      reads this, slots
    {
      Image(View(), slots[..])
    }

    ghost function At(item: K): Key<iset<K>> {
      KeyOf(comparing, item)
    }

    constructor (n: nat, flag: K, comparing: LawfulComparing<K>)
      requires !comparing.storable(flag)
      ensures Valid() && fresh(slots) && slots.Length == n
      ensures this.flag == flag && this.comparing == comparing
      ensures Elements() == map[]
    {
      this.flag, this.comparing := flag, comparing;
      tally := 0;
      slots := new K[n](_ => flag);
      new;
      EmptyTable(View(), slots[..]);
    }

    method ScanFor(item: K) returns (index: int)
      requires Indexed() && comparing.query(item)
      ensures Scanned(View(), At(item), index)
    {
      var n := slots.Length;
      if n == 0 {
        return -1;
      }
      var start := comparing.hash(item) % n;
      ghost var t, k := View(), At(item);
      index := start;
      while true
        invariant 0 <= index < n
        invariant Missed(t, k, index)
        decreases n - Distance(n, start, index)
      {
        var element := slots[index];
        if element != flag {
          KeysDecideEquality(comparing, item, element);
        }
        if element == flag || comparing.equals(item, element) {
          return;
        }
        MissNext(t, k, index);
        index := (index + 1) % n;
        if index == start {
          break;
        }
      }
      return -1;
    }

    /** The stored element that equals the given one, or None. */
    method Find(item: K) returns (result: Option<K>)
      requires Valid() && comparing.query(item)
      ensures result == if At(item) in Elements() then Some(Elements()[At(item)]) else None
      ensures result.Some? ==> comparing.storable(result.value) && comparing.equals(item, result.value)
    {
      var index := ScanFor(item);
      ScanReadsImage(View(), slots[..], At(item), index);
      if index < 0 || slots[index] == flag {
        return None;
      }
      KeysDecideEquality(comparing, item, slots[index]);
      return Some(slots[index]);
    }

    /** Replacing an equal element by another object counts it again. */
    method DoAdd(item: K)
      requires Indexed() && comparing.storable(item) && Used(View()) < slots.Length
      modifies this`tally, slots
      ensures Indexed()
      ensures Elements() == old(Elements())[At(item) := item]
      ensures tally == old(tally)
                     + (if At(item) in old(Elements()) && old(Elements())[At(item)] == item then 0 else 1)
      ensures Used(View()) == old(Used(View())) + (if At(item) in old(Elements()) then 0 else 1)
      ensures Used(View()) <= slots.Length
    {
      var index := ScanFor(item);
      ghost var s := slots[..];
      StoreElement(comparing, flag, s, index, item);
      if slots[index] == item {
        assert s[index := item] == s;
        return;
      }
      slots[index] := item;
      assert slots[..] == s[index := item];
      tally := tally + 1;
    }

    /** Moves the elements to a new array, which makes the tally exact. */
    method DoGrow(newArraySize: nat)
      requires Indexed() && Used(View()) <= newArraySize
      modifies this
      ensures Indexed() && fresh(slots) && slots.Length == newArraySize
      ensures Elements() == old(Elements())
      ensures tally == Used(View()) == old(Used(View()))
    {
      var oldSlots := slots;
      ghost var t, s := View(), slots[..];
      tally := 0;
      slots := new K[newArraySize](_ => flag);
      EmptyTable(View(), slots[..]);
      Reinsert(oldSlots, t, s);
    }

    /** The loop of growing: puts every element of the old array into the new, empty one. */
    method Reinsert(oldSlots: array<K>, ghost t: Table<iset<K>>, ghost s: seq<K>)
      requires Indexed() && tally == Used(View()) == 0 && Elements() == map[]
      requires oldSlots != slots && oldSlots[..] == s && t == TableOf(comparing, flag, s)
      requires Distinct(t) && Used(t) <= slots.Length
      requires forall i :: 0 <= i < |s| && s[i] != flag ==> comparing.storable(s[i])
      modifies this`tally, slots
      ensures Indexed()
      ensures Elements() == Image(t, s)
      ensures tally == Used(View()) == Used(t)
    {
      hide Distinct, Reachable, ImageTo, UsedTo;
      NothingRead(t, s);
      var i := 0;
      while i < oldSlots.Length
        invariant 0 <= i <= oldSlots.Length && oldSlots[..] == s
        invariant Indexed() && tally == Used(View()) == UsedTo(t, i)
        invariant Elements() == ImageTo(t, s, i)
      {
        ImageOfPrefix(t, s, i);
        UsedToGrows(t, i + 1, |t|);
        var element := oldSlots[i];
        if element != flag {
          DoAdd(element);
        }
        i := i + 1;
      }
    }

    /** First rehashes in place; doubles only when that does not make room. */
    method Grow()
      requires Indexed() && tally <= slots.Length
      modifies this
      ensures Valid() && fresh(slots) && slots.Length >= 4
      ensures slots.Length == if 4 <= old(slots.Length) && old(slots.Length) / 4 <= old(slots.Length) - tally
                              then old(slots.Length) else if old(slots.Length) < 2 then 4 else 2 * old(slots.Length)
      ensures slots.Length / 4 <= slots.Length - tally
      ensures Elements() == old(Elements())
      ensures tally == Used(View())
    {
      var n := slots.Length;
      DoGrow(n);
      if !FullCondition(n, tally) {
        return;
      }
      var newArraySize := n * 2;
      if newArraySize < 4 {
        newArraySize := 4;
      }
      GrowthNeverNests(n, tally);
      DoGrow(newArraySize);
    }

    method Add(item: K)
      requires Valid() && comparing.storable(item) && slots.Length > 0
      modifies this, slots
      ensures Valid() && Used(View()) < slots.Length
      ensures 4 <= slots.Length && slots.Length / 4 <= slots.Length - tally
      ensures var n, used := old(slots.Length), Used(View());
              slots.Length == if 4 <= n && n / 4 <= n - used then n else if n < 2 then 4 else 2 * n
      ensures Elements() == old(Elements())[At(item) := item]
      ensures slots == old(slots) || fresh(slots)
    {
      DoAdd(item);
      if FullCondition(slots.Length, tally) {
        Grow();
      }
    }
  }
}
