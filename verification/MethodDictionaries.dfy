/** MethodDictionary: keys and values in two parallel arrays, probed by the identity hash of the key. */
module MethodDictionaries {
  import opened Probing
  import opened Oops

  ghost function KeyOf(identityHash: Oop -> nat, a: Oop): Key<Oop> {
    Key(a, identityHash(a))
  }

  ghost function TableOf(identityHash: Oop -> nat, keys: seq<Oop>): (t: Table<Oop>)
    ensures |t| == |keys|
    ensures forall i :: 0 <= i < |t| ==> t[i] == if keys[i] == NIL then None else Some(KeyOf(identityHash, keys[i]))
  {
    seq(|keys|, i requires 0 <= i < |keys| => if keys[i] == NIL then None else Some(KeyOf(identityHash, keys[i])))
  }

  /** Writing a key and its value to the slot where the scan of the key ended. */
  lemma StoreMethod(identityHash: Oop -> nat, keys: seq<Oop>, values: seq<Oop>, index: int, key: Oop, value: Oop)
    requires |keys| == |values| && key != NIL
    requires var t := TableOf(identityHash, keys);
             WellFormed(t) && Used(t) < |t| && Scanned(t, KeyOf(identityHash, key), index)
    ensures 0 <= index < |keys|
    ensures var t, k := TableOf(identityHash, keys), KeyOf(identityHash, key);
            var t' := TableOf(identityHash, keys[index := key]);
            && WellFormed(t')
            && Image(t', values[index := value]) == Image(t, values)[k := value]
            && Used(t') == Used(t) + (if keys[index] == NIL then 1 else 0) <= |keys|
            && (k in Image(t, values) <==> keys[index] != NIL)
            && (keys[index] != NIL ==> keys[index] == key)
  {
    var t, k := TableOf(identityHash, keys), KeyOf(identityHash, key);
    Store(t, values, k, index, value);
    assert TableOf(identityHash, keys[index := key]) == t[index := Some(k)];
  }

  class MethodDictionary {
    const identityHash: Oop -> nat
    var tally: nat
    var values: array<Oop>
    var keys: array<Oop>

    ghost function View(): (t: Table<Oop>)
      reads this, keys
      ensures |t| == keys.Length
    {
      TableOf(identityHash, keys[..])
    }

    /** The arrays are in step, and a slot without a key has no value. */
    ghost predicate InStep()
      reads this, keys, values
    {
      && keys != values && keys.Length == values.Length
      && forall i :: 0 <= i < keys.Length && keys[i] == NIL ==> values[i] == NIL
    }

    ghost predicate Indexed()
      reads this, keys, values
    {
      InStep() && WellFormed(View()) && tally == Used(View())
    }

    ghost predicate Valid()
      reads this, keys, values
    {
      && Indexed()
      && tally <= keys.Length
      && (if keys.Length < 4 then tally == 0 else !FullCondition(keys.Length, tally))
    }

    /** The finite map the dictionary stands for. */
    ghost function Bindings(): map<Key<Oop>, Oop>
      requires Indexed()
      reads this, keys, values
    {
      Image(View(), values[..])
    }

    ghost function At(key: Oop): Key<Oop> {
      KeyOf(identityHash, key)
    }

    ghost predicate OnTheEdge()
      reads this, keys
    {
      keys.Length <= tally || FullCondition(keys.Length, tally + 1)
    }

    constructor (n: nat, identityHash: Oop -> nat)
      ensures Valid() && fresh(keys) && fresh(values) && keys.Length == n
      ensures this.identityHash == identityHash
      ensures Bindings() == map[]
    {
      this.identityHash := identityHash;
      tally := 0;
      values := new Oop[n](_ => NIL);
      keys := new Oop[n](_ => NIL);
      new;
      EmptyTable(View(), values[..]);
    }

    method ScanFor(key: Oop) returns (index: int)
      requires Indexed() && key != NIL
      ensures Scanned(View(), At(key), index)
    {
      var n := keys.Length;
      if n == 0 {
        return -1;
      }
      var start := identityHash(key) % n;
      ghost var t, k := View(), At(key);
      index := start;
      while true
        invariant 0 <= index < n
        invariant Missed(t, k, index)
        decreases n - Distance(n, start, index)
      {
        var element := keys[index];
        if element == NIL || element == key {
          return;
        }
        MissNext(t, k, index);
        index := (index + 1) % n;
        if index == start {
          break;
        }
      }
      return -1;
    }

    method Grow()
      requires Indexed() && tally <= keys.Length
      modifies this
      ensures Valid() && fresh(keys) && fresh(values) && keys.Length == GrownCapacity(old(keys.Length))
      ensures keys.Length == if old(keys.Length) < 2 then 4 else 2 * old(keys.Length)
      ensures Bindings() == old(Bindings()) && tally == old(tally)
      decreases 1, 1
    {
      var oldValues, oldKeys, n := values, keys, keys.Length;
      var newSize := n * 2;
      if newSize < 4 {
        newSize := 4;
      }
      tally := 0;
      values := new Oop[newSize](_ => NIL);
      keys := new Oop[newSize](_ => NIL);
      EmptyTable(View(), values[..]);
      Reinsert(oldKeys, oldValues);
    }

    /** The loop of growing: puts every entry of the old arrays into the new, empty ones. */
    method Reinsert(oldKeys: array<Oop>, oldValues: array<Oop>)
      requires Valid() && keys.Length == GrownCapacity(oldKeys.Length) && tally == 0 && Bindings() == map[]
      requires oldKeys.Length == oldValues.Length && {oldKeys, oldValues} !! {keys, values}
      requires WellFormed(TableOf(identityHash, oldKeys[..]))
      modifies this, keys, values
      ensures Valid() && keys == old(keys) && values == old(values)
      ensures Bindings() == Image(TableOf(identityHash, old(oldKeys[..])), old(oldValues[..]))
      ensures tally == Used(TableOf(identityHash, old(oldKeys[..])))
      decreases 1, 0
    {
      hide Distinct, Reachable, ImageTo, UsedTo, KeyOf, FullCondition, GrownCapacity;
      ghost var t, s := TableOf(identityHash, oldKeys[..]), oldValues[..];
      NothingRead(t, s);
      var i := 0;
      while i < oldKeys.Length
        invariant 0 <= i <= oldKeys.Length
        invariant Valid() && keys == old(keys) && values == old(values)
        invariant oldKeys[..] == old(oldKeys[..]) && oldValues[..] == s
        invariant Bindings() == ImageTo(t, s, i)
        invariant tally == UsedTo(t, i)
      {
        ImageOfPrefix(t, s, i);
        var element := oldKeys[i];
        if element != NIL {
          GrowthNeverNests(oldKeys.Length, tally + 1);
          AtPut(element, oldValues[i]);
        }
        i := i + 1;
      }
    }

    lemma HeldIsCounted(index: nat)
      requires Indexed() && index < keys.Length && keys[index] != NIL
      ensures tally > 0
    {
      UsedBounds(View());
    }

    /** A dictionary of capacity 0 has no slot to answer, so it grows and tries again. */
    method AtPut(key: Oop, value: Oop)
      requires Valid() && key != NIL
      modifies this, keys, values
      ensures Valid() && keys.Length > 0
      ensures Bindings() == old(Bindings())[At(key) := value]
      ensures tally == old(tally) + (if At(key) in old(Bindings()) then 0 else 1)
      ensures keys.Length == if 4 <= old(keys.Length) && old(keys.Length) / 4 <= old(keys.Length) - tally
                             then old(keys.Length) else if old(keys.Length) < 2 then 4 else 2 * old(keys.Length)
      ensures 4 <= keys.Length && keys.Length / 4 <= keys.Length - tally
      ensures (keys == old(keys) && values == old(values)) || (fresh(keys) && fresh(values) && old(OnTheEdge()))
      decreases if keys.Length == 0 then 3 else if OnTheEdge() then 2 else 0, 0
    {
      hide WellFormed, Image, Used, Scanned, TableOf, KeyOf;
      var index := ScanFor(key);
      UsedBounds(View());
      if index < 0 {
        if keys.Length > 0 {
          ScanSucceeds(View(), At(key), index);
        }
        Grow();
        AtPut(key, value);
        return;
      }
      ghost var ks, vs := keys[..], values[..];
      StoreMethod(identityHash, ks, vs, index, key, value);
      if keys[index] == NIL {
        keys[index] := key;
        values[index] := value;
        assert keys[..] == ks[index := key] && values[..] == vs[index := value];
        tally := tally + 1;
        if FullCondition(keys.Length, tally) {
          Grow();
        }
      } else {
        HeldIsCounted(index);
        values[index] := value;
        assert keys[..] == ks[index := key] && values[..] == vs[index := value];
      }
    }

    method AtOrNil(key: Oop) returns (value: Oop)
      requires Valid() && key != NIL
      ensures value == if At(key) in Bindings() then Bindings()[At(key)] else NIL
    {
      var index := ScanFor(key);
      ScanReadsImage(View(), values[..], At(key), index);
      if index < 0 {
        return NIL;
      }
      return values[index];
    }
  }
}
