/**
 * Dictionary and IdentityDictionary: an array of associations probed by the hash of the association's key.
 * An identity dictionary is the instance whose equality is object identity.
 */
module Dictionaries {
  import opened Probing

  /** An association never changes its key while a table holds it. */
  class Association<K, V> {
    const key: K
    var value: V

    constructor (key: K, value: V)
      ensures this.key == key && this.value == value
    {
      this.key, this.value := key, value;
    }
  }

  /** The hash and equality functions the operations of one dictionary are called with. */
  datatype Hashing<!K> = Hashing(hash: K -> nat, equals: (K, K) -> bool)

  ghost predicate Lawful<K(!new)>(h: Hashing<K>) {
    && (forall a :: h.equals(a, a))
    && (forall a, b :: h.equals(a, b) ==> h.equals(b, a) && h.hash(a) == h.hash(b))
    && (forall a, b, c :: h.equals(a, b) && h.equals(b, c) ==> h.equals(a, c))
  }

  /** Equality is an equivalence, and equal keys have equal hashes. */
  type LawfulHashing<!K(!new)> = h: Hashing<K> | Lawful(h)
    witness Hashing((k: K) => 0, (a: K, b: K) => true)

  /** All the functions can tell about a key. */
  ghost function KeyOf<K(!new)>(h: Hashing<K>, a: K): Key<iset<K>> {
    Key((iset b | h.equals(a, b)), h.hash(a))
  }

  lemma KeysDecideEquality<K(!new)>(h: LawfulHashing<K>, a: K, b: K)
    ensures KeyOf(h, a) == KeyOf(h, b) <==> h.equals(a, b)
  {
    var ka, kb := KeyOf(h, a), KeyOf(h, b);
    assert b in kb.cls;
    if h.equals(a, b) {
      assert ka.cls == kb.cls;
    }
  }

  /** Identity as equality, with any identity hash. */
  function Identity<K(!new, ==)>(identityHash: K -> nat): (h: LawfulHashing<K>)
    ensures h.hash == identityHash && forall a, b :: h.equals(a, b) <==> a == b
  {
    Hashing(identityHash, (a: K, b: K) => a == b)
  }

  /** The table an array of associations makes; a null slot is the nil of the runtime. */
  ghost function TableOf<K(!new), V>(h: Hashing<K>, s: seq<Association?<K, V>>): (t: Table<iset<K>>)
    ensures |t| == |s|
    ensures forall i :: 0 <= i < |s| ==> t[i] == if s[i] == null then None else Some(KeyOf(h, s[i].key))
  {
    seq(|s|, i requires 0 <= i < |s| => if s[i] == null then None else Some(KeyOf(h, s[i].key)))
  }

  /** Writing an association to the slot where the scan of its key ended. */
  lemma StoreAssociation<K(!new), V>(h: Hashing<K>, s: seq<Association?<K, V>>, index: int, a: Association<K, V>)
    requires var t := TableOf(h, s);
             WellFormed(t) && Used(t) < |s| && Scanned(t, KeyOf(h, a.key), index)
    ensures 0 <= index < |s|
    ensures var t, k := TableOf(h, s), KeyOf(h, a.key);
            var t' := TableOf(h, s[index := a]);
            && WellFormed(t')
            && Image(t', s[index := a]) == Image(t, s)[k := a]
            && Used(t') == Used(t) + (if s[index] == null then 1 else 0) <= |s|
            && (k in Image(t, s) <==> s[index] != null)
            && (k in Image(t, s) ==> Image(t, s)[k] == s[index])
  {
    var t, k := TableOf(h, s), KeyOf(h, a.key);
    Store(t, s, k, index, a);
    assert TableOf(h, s[index := a]) == t[index := Some(k)];
  }

  class Dictionary<K(!new), V> {
    const hashing: LawfulHashing<K>
    var tally: nat
    var slots: array<Association?<K, V>>

    ghost function View(): (t: Table<iset<K>>)
      reads this, slots
      ensures |t| == slots.Length
    {
      TableOf(hashing, slots[..])
    }

    /** Everything but the load bound. */
    ghost predicate Indexed()
      reads this, slots
    {
      && WellFormed(View())
      && tally == Used(View())
    }

    ghost predicate Valid()
      reads this, slots
    {
      && Indexed()
      && tally <= slots.Length
      && (if slots.Length < 4 then tally == 0 else !FullCondition(slots.Length, tally))
    }

    /** The finite map the dictionary stands for: from keys, up to equality, to associations. */
    ghost function Bindings(): (b: map<Key<iset<K>>, Association?<K, V>>)
      requires Indexed()
      reads this, slots
    {
      Image(View(), slots[..])
    }

    ghost function Held(): set<Association<K, V>>
      reads this, slots
    {
      set a: Association<K, V> | a in slots[..]
    }

    /** The value a key leads to, through the values the associations hold now. */
    ghost function Lookup(k: Key<iset<K>>): Option<V>
      requires Indexed()
      reads this, slots, Held()
    {
      if k in Bindings() && Bindings()[k] in Held() then Some(Bindings()[k].value) else None
    }

    /** A key is bound to an association the table holds, whose own key is that key. */
    lemma BindingsAreHeld()
      requires Indexed()
      ensures forall k :: k in Bindings() ==>
                Bindings()[k] != null && Bindings()[k] in Held() && At(Bindings()[k].key) == k
    {
      forall k | k in Bindings()
        ensures Bindings()[k] != null && Bindings()[k] in Held() && At(Bindings()[k].key) == k
      {
        var i := ImageToOnlyHolds(View(), slots[..], slots.Length, k);
        assert slots[i] in slots[..];
      }
    }

    ghost function At(key: K): Key<iset<K>>
    {
      KeyOf(hashing, key)
    }

    /** Whether one more occupied slot makes the dictionary grow. */
    ghost predicate OnTheEdge()
      reads this, slots
    {
      slots.Length <= tally || FullCondition(slots.Length, tally + 1)
    }

    lemma ScanReads(index: int, key: K)
      requires Valid() && slots.Length > 0 && Scanned(View(), At(key), index)
      ensures 0 <= index < slots.Length
      ensures At(key) in Bindings() <==> slots[index] != null
      ensures At(key) in Bindings() ==> Bindings()[At(key)] == slots[index]
    {
      ScanSucceeds(View(), At(key), index);
      ScanReadsImage(View(), slots[..], At(key), index);
    }

    constructor (n: nat, hashing: LawfulHashing<K>)
      ensures Valid() && fresh(slots) && slots.Length == n
      ensures this.hashing == hashing
      ensures Bindings() == map[]
    {
      this.hashing := hashing;
      tally := 0;
      slots := new Association?<K, V>[n](_ => null);
      new;
      EmptyTable(View(), slots[..]);
    }

    method ScanFor(key: K) returns (index: int)
      requires Indexed()
      ensures Scanned(View(), At(key), index)
    {
      var n := slots.Length;
      if n == 0 {
        return -1;
      }
      var start := hashing.hash(key) % n;
      ghost var t, k := View(), At(key);
      index := start;
      while true
        invariant 0 <= index < n
        invariant Missed(t, k, index)
        decreases n - Distance(n, start, index)
      {
        var element := slots[index];
        if element != null {
          KeysDecideEquality(hashing, element.key, key);
        }
        if element == null || hashing.equals(element.key, key) {
          return;
        }
        MissNext(t, k, index);
        index := (index + 1) % n;
        if index == start {
          break;
        }
      }
      return -1;
    }

    method Grow()
      requires Indexed() && tally <= slots.Length
      modifies this
      ensures Valid() && fresh(slots) && slots.Length == GrownCapacity(old(slots.Length))
      ensures slots.Length == if old(slots.Length) < 2 then 4 else 2 * old(slots.Length)
      ensures Bindings() == old(Bindings()) && tally == old(tally)
      decreases 1, 1
    {
      var oldSlots, n := slots, slots.Length;
      var newSize := n * 2;
      if newSize < 4 {
        newSize := 4;
      }
      tally := 0;
      slots := new Association?<K, V>[newSize](_ => null);
      EmptyTable(View(), slots[..]);
      Reinsert(oldSlots);
    }

    /** The loop of growing: puts every association of the old array into the new, empty one. */
    method Reinsert(oldSlots: array<Association?<K, V>>)
      requires Valid() && slots.Length == GrownCapacity(oldSlots.Length) && tally == 0 && Bindings() == map[]
      requires oldSlots != slots && WellFormed(TableOf(hashing, oldSlots[..]))
      modifies this, slots
      ensures Valid() && slots == old(slots)
      ensures Bindings() == Image(TableOf(hashing, old(oldSlots[..])), old(oldSlots[..]))
      ensures tally == Used(TableOf(hashing, old(oldSlots[..])))
      decreases 1, 0
    {
      hide Distinct, Reachable, ImageTo, UsedTo, FullCondition, GrownCapacity;
      ghost var t, s := TableOf(hashing, oldSlots[..]), oldSlots[..];
      NothingRead(t, s);
      var i := 0;
      while i < oldSlots.Length
        invariant 0 <= i <= oldSlots.Length
        invariant Valid() && slots == old(slots) && oldSlots[..] == s
        invariant Bindings() == ImageTo(t, s, i)
        invariant tally == UsedTo(t, i)
      {
        ImageOfPrefix(t, s, i);
        var element := oldSlots[i];
        if element != null {
          GrowthNeverNests(oldSlots.Length, tally + 1);
          AddAssociation(element);
        }
        i := i + 1;
      }
    }

    /** Fills the empty slot where a scan ended, and grows when that makes the dictionary full. */
    method Occupy(index: int, association: Association<K, V>)
      requires Valid() && 0 <= index < slots.Length && slots[index] == null
      requires Scanned(View(), At(association.key), index)
      modifies this, slots
      ensures Valid() && slots.Length > 0
      ensures At(association.key) !in old(Bindings())
      ensures Bindings() == old(Bindings())[At(association.key) := association]
      ensures tally == old(tally) + 1
      ensures slots.Length == if 4 <= old(slots.Length) && old(slots.Length) / 4 <= old(slots.Length) - tally
                              then old(slots.Length) else if old(slots.Length) < 2 then 4 else 2 * old(slots.Length)
      ensures 4 <= slots.Length && slots.Length / 4 <= slots.Length - tally
      ensures slots == old(slots) || (fresh(slots) && old(OnTheEdge()))
      decreases if OnTheEdge() then 2 else 0, 0
    {
      ghost var s := slots[..];
      StoreAssociation(hashing, s, index, association);
      slots[index] := association;
      assert slots[..] == s[index := association];
      tally := tally + 1;
      if FullCondition(slots.Length, tally) {
        Grow();
      }
    }

    lemma HeldIsCounted(index: nat)
      requires Indexed() && index < slots.Length && slots[index] != null
      ensures tally > 0
    {
      UsedBounds(View());
    }

    method AddAssociation(association: Association<K, V>)
      requires Valid() && slots.Length > 0
      modifies this, slots
      ensures Valid() && slots.Length > 0
      ensures Bindings() == old(Bindings())[At(association.key) := association]
      ensures tally == old(tally) + (if At(association.key) in old(Bindings()) then 0 else 1)
      ensures slots.Length == if 4 <= old(slots.Length) && old(slots.Length) / 4 <= old(slots.Length) - tally
                              then old(slots.Length) else if old(slots.Length) < 2 then 4 else 2 * old(slots.Length)
      ensures 4 <= slots.Length && slots.Length / 4 <= slots.Length - tally
      ensures slots == old(slots) || (fresh(slots) && old(OnTheEdge()))
      decreases if OnTheEdge() then 2 else 0, 1
    {
      var index := ScanFor(association.key);
      ghost var s := slots[..];
      StoreAssociation(hashing, s, index, association);
      if slots[index] != null {
        HeldIsCounted(index);
        slots[index] := association;
        assert slots[..] == s[index := association];
      } else {
        Occupy(index, association);
      }
    }

    /** Answers the association of the key: the one that was there, or else the one given. */
    method AddAssociationIfNotExistent(association: Association<K, V>) returns (result: Association<K, V>)
      requires Valid() && slots.Length > 0
      modifies this, slots
      ensures Valid() && slots.Length > 0
      ensures var k := At(association.key);
              if k in old(Bindings())
              then result == old(Bindings())[k] && Bindings() == old(Bindings())
              else result == association && Bindings() == old(Bindings())[k := association]
      ensures tally == old(tally) + (if At(association.key) in old(Bindings()) then 0 else 1)
      ensures slots.Length == if 4 <= old(slots.Length) && old(slots.Length) / 4 <= old(slots.Length) - tally
                              then old(slots.Length) else if old(slots.Length) < 2 then 4 else 2 * old(slots.Length)
      ensures 4 <= slots.Length && slots.Length / 4 <= slots.Length - tally
      ensures slots == old(slots) || fresh(slots)
    {
      var index := ScanFor(association.key);
      StoreAssociation(hashing, slots[..], index, association);
      if slots[index] == null {
        Occupy(index, association);
        return association;
      } else {
        HeldIsCounted(index);
        return slots[index];
      }
    }

    /** The association of the key, or null when the key is not bound. */
    method AssociationAt(key: K) returns (element: Association?<K, V>)
      requires Valid() && slots.Length > 0
      ensures element == if At(key) in Bindings() then Bindings()[At(key)] else null
      ensures element != null ==> hashing.equals(element.key, key)
    {
      var index := ScanFor(key);
      ScanReads(index, key);
      element := slots[index];
      if element != null {
        KeysDecideEquality(hashing, element.key, key);
      }
    }

    method AtPut(key: K, value: V)
      requires Valid() && slots.Length > 0
      modifies this, slots, Held()
      ensures Valid() && slots.Length > 0
      ensures At(key) in Bindings() && Lookup(At(key)) == Some(value)
      ensures Bindings() == old(Bindings())[At(key) := Bindings()[At(key)]]
      ensures At(key) in old(Bindings()) ==> Bindings() == old(Bindings())
      ensures forall a :: a in old(Held()) && At(a.key) != At(key) ==> a.value == old(a.value)
      ensures tally == old(tally) + (if At(key) in old(Bindings()) then 0 else 1)
      ensures slots.Length == if 4 <= old(slots.Length) && old(slots.Length) / 4 <= old(slots.Length) - tally
                              then old(slots.Length) else if old(slots.Length) < 2 then 4 else 2 * old(slots.Length)
      ensures 4 <= slots.Length && slots.Length / 4 <= slots.Length - tally
      ensures slots == old(slots) || fresh(slots)
    {
      var index := ScanFor(key);
      BindingsAreHeld();
      ghost var k, b := At(key), Bindings();
      ScanReads(index, key);
      var element := slots[index];
      if element == null {
        element := new Association(key, value);
        Occupy(index, element);
      } else {
        HeldIsCounted(index);
        element.value := value;
        assert slots[..] == old(slots[..]);
      }
      BindingsAreHeld();
      assert Bindings() == b[k := element] && element.value == value;
    }

    method AtOrNil(key: K) returns (value: Option<V>)
      requires Valid() && slots.Length > 0
      ensures value == Lookup(At(key))
    {
      var index := ScanFor(key);
      BindingsAreHeld();
      ScanReads(index, key);
      var element := slots[index];
      if element == null {
        return None;
      }
      return Some(element.value);
    }
  }
}
