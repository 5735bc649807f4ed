/** How an object encodes its size on 64 bits: slots of 8 bytes, with the unused elements in the format. */
module ObjectSizes {
  import Bits

  const INDEXABLE_64: nat := 9
  const INDEXABLE_32: nat := 10
  const INDEXABLE_16: nat := 12
  const INDEXABLE_8: nat := 16
  const MIXED_OBJECT: nat := 24
  const OOP_SIZE: nat := 8

  /** Slot counts from here on do not fit the header and go to a preheader word. */
  const BIG: nat := 255

  /** The parts of an object that tell its size; the preheader word is only there when slotCount is 255. */
  datatype Sized = Sized(objectFormat: nat, slotCount: nat, preheader: nat)

  /** The formats a class may ask for; the ones between them only encode padding. */
  predicate IsClassFormat(format: nat) {
    format <= INDEXABLE_32 || format == INDEXABLE_16 || format == INDEXABLE_8
  }

  function FormatMultiplier(format: nat): nat {
    if format == INDEXABLE_64 then 1
    else if 10 <= format <= 11 then OOP_SIZE / 4
    else if 12 <= format <= 15 then OOP_SIZE / 2
    else if 16 <= format <= 31 then OOP_SIZE
    else 1
  }

  function FormatExtraSize(format: nat): nat {
    if 11 == format then 1
    else if 13 <= format <= 15 then format - 12
    else if 17 <= format <= 23 then format - 16
    else if 25 <= format <= 31 then format - 24
    else 0
  }

  /** The size fields of a new object that is not mixed.  The format field has 5 bits. */
  function Instantiate(format: nat, slots: nat): Sized {
    if slots >= BIG then Sized(format % 32, BIG, slots) else Sized(format % 32, slots, 0)
  }

  function ElementSize(format: nat): nat {
    if format == INDEXABLE_32 then 4 else if format == INDEXABLE_16 then 2 else if format == INDEXABLE_8 then 1 else 8
  }

  /** The slots for n elements.  The rounding of 32-bit elements divides by their size. */
  function ExtraSlots(format: nat, n: nat): nat {
    if format == INDEXABLE_32 then (n * 4 + 7) / 4
    else if format == INDEXABLE_16 then (n * 2 + OOP_SIZE - 1) / OOP_SIZE
    else if format == INDEXABLE_8 then (n + OOP_SIZE - 1) / OOP_SIZE
    else n
  }

  /** A new object of a class with so many fixed slots, and n elements after them. */
  function BasicNew(format: nat, fixedSlots: nat, n: nat): Sized
    requires IsClassFormat(format)
  {
    var remaining := ExtraSlots(format, n) * OOP_SIZE - n * ElementSize(format);
    Instantiate(format + remaining, fixedSlots + ExtraSlots(format, n))
  }

  /** The size of an object, read back from its format and slots. */
  function BasicSize(o: Sized): int {
    if o.slotCount == BIG then
      if o.objectFormat >= MIXED_OBJECT then
        o.preheader % 0x1_0000_0000 * OOP_SIZE - FormatExtraSize(o.objectFormat)
      else o.preheader * FormatMultiplier(o.objectFormat) - FormatExtraSize(o.objectFormat)
    else o.slotCount * FormatMultiplier(o.objectFormat) - FormatExtraSize(o.objectFormat)
  }

  /** On either side of the threshold the slots read back are the slots written. */
  lemma SizeOfInstance(format: nat, slots: nat)
    requires format < 32 && (format >= MIXED_OBJECT ==> slots < 0x1_0000_0000)
    ensures BasicSize(Instantiate(format, slots)) == slots * FormatMultiplier(format) - FormatExtraSize(format)
  {
    if format >= MIXED_OBJECT {
      assert slots % 0x1_0000_0000 == slots;
    }
  }

  /** The condition under which an object tells the size it was made with. */
  predicate SizeIsKept(format: nat, fixedSlots: nat, n: nat) {
    if format == INDEXABLE_32 then fixedSlots == 1 && (n % 8 == 4 || n % 8 == 5)
    else if format == INDEXABLE_16 then n % 4 == 0
    else true
  }

  /**
   * Exactly then the size read back is the number of elements asked for, plus the elements that the fixed
   * slots make.
   */
  lemma SizeRoundTrip(format: nat, fixedSlots: nat, n: nat)
    requires IsClassFormat(format) && (format == INDEXABLE_32 ==> fixedSlots + n + 1 < 0x1_0000_0000)
    ensures BasicSize(BasicNew(format, fixedSlots, n)) == fixedSlots * FormatMultiplier(format) + n
       <==> SizeIsKept(format, fixedSlots, n)
  {
    hide BasicNew, BasicSize;
    if format == INDEXABLE_32 {
      Size32(fixedSlots, n);
    } else if format == INDEXABLE_16 {
      Size16(fixedSlots, n);
    } else if format == INDEXABLE_8 {
      Size8(fixedSlots, n);
    } else {
      Size64(format, fixedSlots, n);
    }
  }

  lemma Size64(format: nat, f: nat, n: nat)
    requires format <= INDEXABLE_64
    ensures BasicSize(BasicNew(format, f, n)) == f * FormatMultiplier(format) + n
  {
    SizeOfInstance(format, f + n);
  }

  lemma Size8(f: nat, n: nat)
    ensures BasicSize(BasicNew(INDEXABLE_8, f, n)) == 8 * f + n
  {
    var slots := (n + 7) / 8;
    hide BasicSize;
    SizeOfInstance(INDEXABLE_8 + (slots * 8 - n), f + slots);
  }

  lemma Size16(f: nat, n: nat)
    ensures BasicSize(BasicNew(INDEXABLE_16, f, n)) == 4 * f + n <==> n % 4 == 0
  {
    var q, r := n / 4, n % 4;
    var slots, padded := if r == 0 then q else q + 1, if r == 0 then 12 else 20 - 2 * r;
    Padding16(f, n, q, r);
    SizeOfInstance(padded, f + slots);
    Size16Cases(f, q, r);
    hide BasicNew, BasicSize, Instantiate, FormatMultiplier, FormatExtraSize;
  }

  lemma Size16Cases(f: nat, q: nat, r: nat)
    requires r < 4
    ensures var slots, padded := if r == 0 then q else q + 1, if r == 0 then 12 else 20 - 2 * r;
            ((f + slots) * FormatMultiplier(padded) - FormatExtraSize(padded) == 4 * f + 4 * q + r <==> r == 0)
  {
    if r == 0 {
    } else if r == 1 {
    } else if r == 2 {
    } else {
    }
  }

  lemma Padding16(f: nat, n: nat, q: nat, r: nat)
    requires n == 4 * q + r && r < 4
    ensures BasicNew(INDEXABLE_16, f, n)
         == Instantiate(if r == 0 then 12 else 20 - 2 * r, f + if r == 0 then q else q + 1)
  {
    Bits.DivModUnique(n * 2 + 7, 8, if r == 0 then q else q + 1, if r == 0 then 7 else 2 * r - 1);
    hide Instantiate;
  }

  lemma Size32(f: nat, n: nat)
    requires f + n + 1 < 0x1_0000_0000
    ensures BasicSize(BasicNew(INDEXABLE_32, f, n)) == 2 * f + n <==> f == 1 && (n % 8 == 4 || n % 8 == 5)
  {
    assert ExtraSlots(INDEXABLE_32, n) == n + 1;
    var padded := (18 + 4 * n) % 32;
    assert BasicNew(INDEXABLE_32, f, n) == Instantiate(padded, f + n + 1);
    SizeOfInstance(padded, f + n + 1);
    Padding32(n);
    hide BasicNew, Instantiate, BasicSize;
    Size32Cases(f, n, n % 8, padded);
  }

  lemma Size32Cases(f: nat, n: nat, r: nat, padded: nat)
    requires r == n % 8 && padded == (18 + 4 * r) % 32
    ensures (f + n + 1) * FormatMultiplier(padded) - FormatExtraSize(padded) == 2 * f + n
       <==> f == 1 && (r == 4 || r == 5)
  {
    if r == 4 || r == 5 {
      assert padded == 2 || padded == 6;
    } else {
      assert padded == 18 || padded == 22 || padded == 26 || padded == 30 || padded == 10 || padded == 14;
    }
  }

  lemma Padding32(n: nat)
    ensures (18 + 4 * n) % 32 == (18 + 4 * (n % 8)) % 32
  {
    var q, r := n / 8, n % 8;
    assert n == 8 * q + r;
    assert 18 + 4 * n == 32 * q + (18 + 4 * r);
  }

  /** Where the size is kept whatever it is, the padding stays within the family of the format. */
  lemma FormatStaysInFamily(format: nat, fixedSlots: nat, n: nat)
    requires IsClassFormat(format) && format != INDEXABLE_32 && format != INDEXABLE_16
    ensures var o := BasicNew(format, fixedSlots, n);
            && o.objectFormat < MIXED_OBJECT
            && (format == INDEXABLE_8 ==> INDEXABLE_8 <= o.objectFormat < INDEXABLE_8 + 8)
            && (format != INDEXABLE_8 ==> o.objectFormat == format)
            && FormatMultiplier(o.objectFormat) == FormatMultiplier(format)
  {
  }

  // ---- Mixed objects: pointers first, then native bytes ----

  /** Mixed objects always have a preheader, with the number of pointer slots in its upper half. */
  function BasicNewMixed(format: nat, fixedSlots: nat, n: nat, nativeSize: nat): Sized {
    var content := n * OOP_SIZE + nativeSize;
    var extra := (content + OOP_SIZE - 1) / OOP_SIZE;
    var remaining := extra * OOP_SIZE - content;
    Sized((format + remaining) % 32, BIG, fixedSlots + extra + (fixedSlots + n) * 0x1_0000_0000)
  }

  /** Where the native data of a mixed object starts, in bytes from its header. */
  function FirstNativeData(o: Sized): nat {
    8 + o.preheader / 0x1_0000_0000 * OOP_SIZE
  }

  /** A mixed object tells its size, and its native data lies after all pointers and fits. */
  lemma MixedRoundTrip(fixedSlots: nat, n: nat, nativeSize: nat)
    requires fixedSlots + n + nativeSize < 0x1_0000_0000
    ensures var o := BasicNewMixed(MIXED_OBJECT, fixedSlots, n, nativeSize);
            && MIXED_OBJECT <= o.objectFormat < 32
            && BasicSize(o) == fixedSlots * OOP_SIZE + n * OOP_SIZE + nativeSize
            && FirstNativeData(o) == 8 + (fixedSlots + n) * OOP_SIZE
            && FirstNativeData(o) + nativeSize <= 8 + o.preheader % 0x1_0000_0000 * OOP_SIZE
  {
    var extra := (n * OOP_SIZE + nativeSize + OOP_SIZE - 1) / OOP_SIZE;
    var low, high := fixedSlots + extra, fixedSlots + n;
    Unpack(low, high);
  }

  lemma Unpack(low: nat, high: nat)
    requires low < 0x1_0000_0000
    ensures (low + high * 0x1_0000_0000) % 0x1_0000_0000 == low && (low + high * 0x1_0000_0000) / 0x1_0000_0000 == high
  {
  }
}
