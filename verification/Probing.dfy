/**
 * Open addressing with linear probing, independent of what a slot holds.  A table shows for each slot
 * the key it holds, or None for an empty slot.  A key is what a pair of hash and equality functions can
 * tell about an object: its equality class and its hash.
 */
module Probing {
  import Bits

  datatype Option<+T> = None | Some(value: T)

  datatype Key<C> = Key(cls: C, hash: nat)

  type Table<C> = seq<Option<Key<C>>>

  /** Number of steps of `(index + 1) % n` that lead from s to i. */
  function Distance(n: nat, s: nat, i: nat): nat
    requires s < n && i < n
  {
    if s <= i then i - s else i + n - s
  }

  /** The slot where the probe sequence of k starts. */
  function Home<C>(k: Key<C>, n: nat): (h: nat)
    requires n > 0
    ensures h < n
  {
    k.hash % n
  }

  /** No slot on the probe path from the home of a stored key to the slot that holds it is empty. */
  ghost predicate Reachable<C>(t: Table<C>) {
    forall i, j :: 0 <= i < |t| && 0 <= j < |t| && t[i].Some?
      && Distance(|t|, Home(t[i].value, |t|), j) < Distance(|t|, Home(t[i].value, |t|), i)
      ==> t[j].Some?
  }

  ghost predicate Distinct<C>(t: Table<C>) {
    forall i, j :: 0 <= i < j < |t| && t[i].Some? ==> t[i] != t[j]
  }

  ghost predicate WellFormed<C>(t: Table<C>) {
    Reachable(t) && Distinct(t)
  }

  ghost predicate Stops<C>(t: Table<C>, k: Key<C>, i: nat)
    requires i < |t|
  {
    t[i].None? || t[i].value == k
  }

  /** No slot that the probe sequence of k visits before slot i stops its scan. */
  ghost predicate Missed<C>(t: Table<C>, k: Key<C>, i: nat)
    requires i < |t|
  {
    forall j :: 0 <= j < |t| && Distance(|t|, Home(k, |t|), j) < Distance(|t|, Home(k, |t|), i)
      ==> !Stops(t, k, j)
  }

  /** r is the answer of a scan for k: the first slot of its probe sequence that is empty or holds k, or -1. */
  ghost predicate Scanned<C>(t: Table<C>, k: Key<C>, r: int) {
    if r < 0 then
      r == -1 && forall i :: 0 <= i < |t| ==> !Stops(t, k, i)
    else
      r < |t| && Stops(t, k, r) && Missed(t, k, r)
  }

  /** Number of occupied slots among the first n. */
  ghost function UsedTo<C>(t: Table<C>, n: nat): nat
    requires n <= |t|
  {
    if n == 0 then 0 else UsedTo(t, n - 1) + (if t[n - 1].Some? then 1 else 0)
  }

  ghost function Used<C>(t: Table<C>): nat {
    UsedTo(t, |t|)
  }

  /** The load condition after which a table grows.  The subtraction is on unsigned words. */
  predicate FullCondition(n: nat, tally: nat)
    requires tally <= n
  {
    n < 4 || n - tally < n / 4
  }

  /** The capacity a growing table takes next. */
  function GrownCapacity(n: nat): nat {
    if n * 2 < 4 then 4 else n * 2
  }

  /** One step of the probe sequence moves one further from every start but wraps exactly there. */
  lemma NextSlot(n: nat, s: nat, i: nat)
    requires s < n && i < n
    ensures (i + 1) % n < n
    ensures (i + 1) % n == if i + 1 == n then 0 else i + 1
    ensures (i + 1) % n != s ==> Distance(n, s, (i + 1) % n) == Distance(n, s, i) + 1
    ensures (i + 1) % n == s ==> Distance(n, s, i) == n - 1
  {
    if i + 1 < n {
      Bits.ModSmall(i + 1, n);
    } else {
      Bits.DivModUnique(n, n, 1, 0);
    }
  }

  /** A slot that does not stop the scan extends what it missed, or ends it when the sequence wraps. */
  lemma MissNext<C>(t: Table<C>, k: Key<C>, i: nat)
    requires i < |t| && Missed(t, k, i) && !Stops(t, k, i)
    ensures (i + 1) % |t| == Home(k, |t|) ==> Scanned(t, k, -1)
    ensures (i + 1) % |t| != Home(k, |t|) ==>
              && Missed(t, k, (i + 1) % |t|)
              && Distance(|t|, Home(k, |t|), (i + 1) % |t|) == Distance(|t|, Home(k, |t|), i) + 1
  {
    var n, s := |t|, Home(k, |t|);
    NextSlot(n, s, i);
    forall j | 0 <= j < n && Distance(n, s, j) <= Distance(n, s, i) ensures !Stops(t, k, j) {
      if j != i {
        assert Distance(n, s, j) != Distance(n, s, i);
      }
    }
  }

  /** A scan of a well-formed table finds a key exactly when some slot holds it. */
  lemma ScanDecides<C>(t: Table<C>, k: Key<C>, r: int)
    requires WellFormed(t) && Scanned(t, k, r)
    ensures Some(k) in t <==> r >= 0 && t[r] == Some(k)
  {
    if Some(k) in t {
      var i :| 0 <= i < |t| && t[i] == Some(k);
      assert Stops(t, k, i);
    }
  }

  /** Storing a key where its scan ended keeps every stored key reachable and unique. */
  lemma StoreKeepsWellFormed<C>(t: Table<C>, k: Key<C>, r: int)
    requires WellFormed(t) && Scanned(t, k, r) && r >= 0
    ensures WellFormed(t[r := Some(k)])
    ensures Used(t[r := Some(k)]) == Used(t) + (if t[r].None? then 1 else 0)
    ensures forall x :: Some(x) in t[r := Some(k)] <==> x == k || Some(x) in t
  {
    ScanDecides(t, k, r);
    UsedAfterUpdate(t, r, k);
    var u := t[r := Some(k)];
    forall x ensures Some(x) in u <==> x == k || Some(x) in t {
      if x == k {
        assert u[r] == Some(x);
      } else if Some(x) in t {
        var i :| 0 <= i < |t| && t[i] == Some(x);
        assert i != r && u[i] == Some(x);
      }
    }
  }

  lemma UsedAfterUpdate<C>(t: Table<C>, r: nat, k: Key<C>)
    requires r < |t|
    ensures Used(t[r := Some(k)]) == Used(t) + (if t[r].None? then 1 else 0)
  {
    UsedToAfterUpdate(t, r, k, |t|);
  }

  lemma {:induction false} UsedToAfterUpdate<C>(t: Table<C>, r: nat, k: Key<C>, n: nat)
    requires r < |t| && n <= |t|
    ensures UsedTo(t[r := Some(k)], n) == UsedTo(t, n) + (if r < n && t[r].None? then 1 else 0)
  {
    if n > 0 {
      UsedToAfterUpdate(t, r, k, n - 1);
    }
  }

  lemma {:induction false} UsedToBounds<C>(t: Table<C>, n: nat)
    requires n <= |t|
    ensures UsedTo(t, n) <= n
    ensures UsedTo(t, n) == n <==> forall i :: 0 <= i < n ==> t[i].Some?
    ensures UsedTo(t, n) == 0 <==> forall i :: 0 <= i < n ==> t[i].None?
  {
    if n > 0 {
      UsedToBounds(t, n - 1);
      assert t[n - 1].Some? || t[n - 1].None?;
    }
  }

  lemma UsedToGrows<C>(t: Table<C>, m: nat, n: nat)
    requires m <= n <= |t|
    ensures UsedTo(t, m) <= UsedTo(t, n)
    decreases n
  {
    if m < n {
      UsedToGrows(t, m, n - 1);
    }
  }

  lemma UsedBounds<C>(t: Table<C>)
    ensures Used(t) <= |t|
    ensures Used(t) == |t| <==> forall i :: 0 <= i < |t| ==> t[i].Some?
    ensures Used(t) == 0 <==> forall i :: 0 <= i < |t| ==> t[i].None?
  {
    UsedToBounds(t, |t|);
  }

  /** A scan never fails on a table that has an empty slot. */
  lemma ScanSucceeds<C>(t: Table<C>, k: Key<C>, r: int)
    requires Scanned(t, k, r) && Used(t) < |t|
    ensures r >= 0
  {
    UsedBounds(t);
    var i :| 0 <= i < |t| && t[i].None?;
    assert Stops(t, k, i);
  }

  /** The scan has one answer: two results for the same key in the same table agree. */
  lemma ScanDeterministic<C>(t: Table<C>, k: Key<C>, r: int, s: int)
    requires Scanned(t, k, r) && Scanned(t, k, s)
    ensures r == s
  {
    assert r >= 0 ==> Stops(t, k, r);
    assert s >= 0 ==> Stops(t, k, s);
  }

  lemma EmptyTable<C, E>(t: Table<C>, es: seq<E>)
    requires |t| == |es| && forall i :: 0 <= i < |t| ==> t[i].None?
    ensures WellFormed(t) && Used(t) == 0 && Image(t, es) == map[]
  {
    UsedBounds(t);
    EmptyPrefix(t, es, |t|);
  }

  lemma {:induction false} EmptyPrefix<C, E>(t: Table<C>, es: seq<E>, n: nat)
    requires n <= |t| == |es| && forall i :: 0 <= i < |t| ==> t[i].None?
    ensures ImageTo(t, es, n) == map[]
  {
    if n > 0 {
      EmptyPrefix(t, es, n - 1);
    }
  }

  /**
   * Re-inserting the entries of a table of capacity a into one of the grown capacity never meets the
   * full condition, so the additions made while growing never grow again.
   */
  lemma GrowthNeverNests(a: nat, reinserted: nat)
    requires reinserted <= a
    ensures reinserted < GrownCapacity(a)
    ensures !FullCondition(GrownCapacity(a), reinserted)
  {
  }

  /** What a table maps its keys to, when slot i of a parallel sequence holds the entry of slot i. */
  ghost function Image<C, E>(t: Table<C>, es: seq<E>): map<Key<C>, E>
    requires |t| == |es|
  {
    ImageTo(t, es, |t|)
  }

  ghost function ImageTo<C, E>(t: Table<C>, es: seq<E>, n: nat): map<Key<C>, E>
    requires n <= |t| == |es|
  {
    if n == 0 then map[]
    else if t[n - 1].Some? then ImageTo(t, es, n - 1)[t[n - 1].value := es[n - 1]]
    else ImageTo(t, es, n - 1)
  }

  lemma {:induction false} ImageToHolds<C, E>(t: Table<C>, es: seq<E>, n: nat, i: nat)
    requires i < n <= |t| == |es| && Distinct(t) && t[i].Some?
    ensures t[i].value in ImageTo(t, es, n) && ImageTo(t, es, n)[t[i].value] == es[i]
  {
    if i < n - 1 {
      ImageToHolds(t, es, n - 1, i);
      assert t[n - 1] != t[i];
    }
  }

  lemma {:induction false} ImageToOnlyHolds<C, E>(t: Table<C>, es: seq<E>, n: nat, k: Key<C>) returns (i: nat)
    requires n <= |t| == |es| && k in ImageTo(t, es, n)
    ensures i < n && t[i] == Some(k) && ImageTo(t, es, n)[k] == es[i]
  {
    if t[n - 1] == Some(k) {
      i := n - 1;
    } else {
      i := ImageToOnlyHolds(t, es, n - 1, k);
    }
  }

  /** The map binds exactly the keys the table shows, each to the entry of its slot. */
  lemma ImageAt<C, E>(t: Table<C>, es: seq<E>, i: nat)
    requires i < |t| == |es| && Distinct(t) && t[i].Some?
    ensures t[i].value in Image(t, es) && Image(t, es)[t[i].value] == es[i]
  {
    ImageToHolds(t, es, |t|, i);
  }

  lemma ImageKeys<C, E>(t: Table<C>, es: seq<E>, k: Key<C>)
    requires |t| == |es| && Distinct(t)
    ensures k in Image(t, es) <==> Some(k) in t
  {
    if k in Image(t, es) {
      var i := ImageToOnlyHolds(t, es, |t|, k);
    } else if Some(k) in t {
      var i :| 0 <= i < |t| && t[i] == Some(k);
      ImageAt(t, es, i);
    }
  }

  /** The slot a scan ends at reads the map. */
  lemma ScanReadsImage<C, E>(t: Table<C>, es: seq<E>, k: Key<C>, r: int)
    requires |t| == |es| && WellFormed(t) && Scanned(t, k, r)
    ensures k in Image(t, es) <==> r >= 0 && t[r].Some?
    ensures k in Image(t, es) ==> Image(t, es)[k] == es[r]
  {
    ScanDecides(t, k, r);
    ImageKeys(t, es, k);
    if r >= 0 && t[r].Some? {
      ImageAt(t, es, r);
    }
  }

  lemma {:induction false} ImageToAfterStore<C, E>(t: Table<C>, es: seq<E>, k: Key<C>, r: nat, e: E, n: nat)
    requires r < |t| == |es| && n <= |t| && Distinct(t[r := Some(k)])
    requires t[r].Some? ==> t[r].value == k
    ensures ImageTo(t[r := Some(k)], es[r := e], n)
         == if r < n then ImageTo(t, es, n)[k := e] else ImageTo(t, es, n)
  {
    if n > 0 {
      ImageToAfterStore(t, es, k, r, e, n - 1);
      var u := t[r := Some(k)];
      if r < n - 1 && t[n - 1].Some? {
        assert u[r] != u[n - 1];
      }
    }
  }

  /** Storing an entry where the scan of its key ended, in a table that is not full, updates the map. */
  lemma Store<C, E>(t: Table<C>, es: seq<E>, k: Key<C>, r: int, e: E)
    requires |t| == |es| && WellFormed(t) && Used(t) < |t| && Scanned(t, k, r)
    ensures 0 <= r < |t|
    ensures WellFormed(t[r := Some(k)])
    ensures Image(t[r := Some(k)], es[r := e]) == Image(t, es)[k := e]
    ensures Used(t[r := Some(k)]) == Used(t) + (if t[r].None? then 1 else 0) <= |t|
    ensures k in Image(t, es) <==> t[r].Some?
    ensures k in Image(t, es) ==> Image(t, es)[k] == es[r]
  {
    ScanSucceeds(t, k, r);
    ScanReadsImage(t, es, k, r);
    StoreKeepsWellFormed(t, k, r);
    ImageToAfterStore(t, es, k, r, e, |t|);
    UsedBounds(t[r := Some(k)]);
  }

  lemma NothingRead<C, E>(t: Table<C>, es: seq<E>)
    requires |t| == |es|
    ensures ImageTo(t, es, 0) == map[] && UsedTo(t, 0) == 0
  {
  }

  /** Reading a table one slot further adds the entry of that slot, under a new key. */
  lemma ImageOfPrefix<C, E>(t: Table<C>, es: seq<E>, i: nat)
    requires i < |t| == |es| && Distinct(t)
    ensures t[i].Some? ==> t[i].value !in ImageTo(t, es, i)
    ensures ImageTo(t, es, i + 1) == if t[i].Some? then ImageTo(t, es, i)[t[i].value := es[i]] else ImageTo(t, es, i)
    ensures UsedTo(t, i) <= i && UsedTo(t, i + 1) == UsedTo(t, i) + (if t[i].Some? then 1 else 0)
  {
    UsedToBounds(t, i);
    if t[i].Some? && t[i].value in ImageTo(t, es, i) {
      var j := ImageToOnlyHolds(t, es, i, t[i].value);
    }
  }

  /** The tally of a table is the size of the map it holds. */
  lemma UsedIsImageSize<C, E>(t: Table<C>, es: seq<E>)
    requires |t| == |es| && Distinct(t)
    ensures Used(t) == |Image(t, es)|
  {
    UsedToIsImageSize(t, es, |t|);
  }

  lemma {:induction false} UsedToIsImageSize<C, E>(t: Table<C>, es: seq<E>, n: nat)
    requires n <= |t| == |es| && Distinct(t)
    ensures UsedTo(t, n) == |ImageTo(t, es, n)|
  {
    if n > 0 {
      ImageOfPrefix(t, es, n - 1);
      UsedToIsImageSize(t, es, n - 1);
    }
  }
}
