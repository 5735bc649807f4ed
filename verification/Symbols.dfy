/** Interning of byte strings into unique symbols, over two weak sets. */
module Symbols {
  import opened Probing
  import opened StringHash
  import opened WeakSets
  import Bits

  /**
   * Objects the symbol sets meet.  A string never changes after it is made, so an object is its identity
   * together with its bytes; the flag of a set is a plain object.
   */
  datatype Object =
    | Plain(id: nat)
    | ByteString(id: nat, data: seq<Byte>)
    | ByteSymbol(id: nat, data: seq<Byte>)

  /** The class index of ByteString, which seeds the hash of every text. */
  const BYTE_STRING: Word32 := 170

  function Bytes(o: Object): seq<Byte> {
    if o.Plain? then [] else o.data
  }

  function StringHashOf(o: Object): nat {
    Hash(BYTE_STRING, Bytes(o))
  }

  /** String equality.  Both tests of a symbol class look at the second text. */
  predicate Equals(first: Object, second: Object) {
    first == second ||
    var isFirstBytes := first.ByteString? || second.ByteSymbol?;
    var isSecondBytes := second.ByteString? || second.ByteSymbol?;
    isFirstBytes && isSecondBytes && Bytes(first) == Bytes(second)
  }

  /** The comparison of the contents, one byte at a time. */
  method ByteStringEquals(first: seq<Byte>, second: seq<Byte>) returns (equal: bool)
    ensures equal <==> first == second
  {
    if |first| != |second| {
      return false;
    }
    for i := 0 to |first|
      invariant first[..i] == second[..i]
    {
      if first[i] != second[i] {
        return false;
      }
    }
    return true;
  }

  /** Equality of byte strings and symbols is equality of contents, except from a symbol to a text. */
  lemma EqualsExactly(first: Object, second: Object)
    requires !first.Plain? && !second.Plain?
    ensures Equals(first, second)
       <==> first == second || (first.data == second.data && !(first.ByteSymbol? && second.ByteString?))
  {
  }

  /** So it is not symmetric. */
  lemma EqualsIsNotSymmetric(data: seq<Byte>)
    ensures Equals(ByteString(0, data), ByteSymbol(1, data))
    ensures !Equals(ByteSymbol(1, data), ByteString(0, data))
  {
  }

  /** Byte number i of wide characters, each in four bytes, the low one first. */
  function ByteOfWide(codes: seq<Word32>, i: nat): nat
    requires i < |codes|
  {
    codes[i / 4] / Bits.Pow2(8 * (i % 4)) % 256
  }

  /**
   * String equality of a wide text with a byte symbol.  As both tests look at the symbol, the text is taken for a
   * byte string: its characters are counted, but its bytes are compared.
   */
  predicate WideEquals(codes: seq<Word32>, data: seq<Byte>) {
    |codes| == |data| && forall i :: 0 <= i < |codes| ==> ByteOfWide(codes, i) == data[i]
  }

  /** So one wide character equals a byte symbol exactly when its low byte does. */
  lemma WideCharacterEquals(code: Word32, b: Byte)
    ensures WideEquals([code], [b]) <==> code % 256 == b
  {
    assert Bits.Pow2(0) == 1;
    assert ByteOfWide([code], 0) == code % 256;
  }

  /** Of two wide characters the second byte compared is the next one of the first character. */
  lemma WideTextEquals(first: Word32, second: Word32, b: Byte, c: Byte)
    ensures WideEquals([first, second], [b, c]) <==> first % 256 == b && first / 256 % 256 == c
  {
    assert Bits.Pow2(0) == 1 && Bits.Pow2(8) == 256;
    assert ByteOfWide([first, second], 0) == first % 256 && ByteOfWide([first, second], 1) == first / 256 % 256;
  }

  /**
   * This is no equality a set could use: a wide text may equal a symbol of other characters and another hash, and
   * not equal the symbol of the same characters and the same hash.
   */
  lemma WideTextsAreConfused()
    ensures WideEquals([0x141], [0x41]) && Hash(BYTE_STRING, [0x141]) != Hash(BYTE_STRING, [0x41])
    ensures !WideEquals([0x41, 0x42], [0x41, 0x42])
  {
    WideCharacterEquals(0x141, 0x41);
    WideTextEquals(0x41, 0x42, 0x41, 0x42);
    OneCharacter(BYTE_STRING, [0x141], 0, 0x41);
    assert [0x141][0 := 0x41] == [0x41];
  }

  predicate IsByteKind(o: Object) { !o.Plain? }

  predicate IsSymbol(o: Object) { o.ByteSymbol? }

  /** With symbols stored and strings or symbols queried, the equality is still good enough for a set. */
  function SymbolComparing(): (c: LawfulComparing<Object>)
    ensures c == Comparing(StringHashOf, Equals, IsByteKind, IsSymbol)
  {
    Comparing(StringHashOf, Equals, IsByteKind, IsSymbol)
  }

  /** What a set can tell about a string with these bytes. */
  ghost function Name(data: seq<Byte>): Key<iset<Object>> {
    KeyOf(SymbolComparing(), ByteSymbol(0, data))
  }

  lemma NamesAreBytes(s: Object, data: seq<Byte>)
    requires !s.Plain?
    ensures KeyOf(SymbolComparing(), s) == Name(data) <==> s.data == data
  {
    var symbol := ByteSymbol(0, data);
    KeysDecideEquality(SymbolComparing(), s, symbol);
  }

  /** The elements of the two sets that symbols are looked up in, in this order. */
  datatype Tables = Tables(symbolTable: map<Key<iset<Object>>, Object>, newSymbols: map<Key<iset<Object>>, Object>)

  ghost function SymbolOf(t: Tables, data: seq<Byte>): Option<Object> {
    if Name(data) in t.symbolTable then Some(t.symbolTable[Name(data)])
    else if Name(data) in t.newSymbols then Some(t.newSymbols[Name(data)])
    else None
  }

  /** One interning: the answer is a symbol with the bytes of the text, now and ever after the one of its bytes. */
  ghost predicate Interns(t: Tables, text: Object, symbol: Object, t': Tables) {
    && symbol.ByteSymbol? && symbol.data == Bytes(text)
    && SymbolOf(t', Bytes(text)) == Some(symbol)
    && forall d :: d != Bytes(text) || SymbolOf(t, d).Some? ==> SymbolOf(t', d) == SymbolOf(t, d)
  }

  lemma AddingInterns(t: Tables, text: Object, symbol: Object)
    requires !text.Plain? && symbol.ByteSymbol? && symbol.data == text.data
    requires SymbolOf(t, text.data).None?
    ensures Interns(t, text, symbol, t.(newSymbols := t.newSymbols[KeyOf(SymbolComparing(), symbol) := symbol]))
  {
    NamesAreBytes(symbol, text.data);
    forall d | d != text.data ensures Name(d) != Name(text.data) {
      NamesAreBytes(symbol, d);
    }
  }

  /** The objects made so far, each at the index that is its identity. */
  ghost predicate IsHeap(heap: seq<Object>) {
    forall i :: 0 <= i < |heap| ==> heap[i].id == i
  }

  predicate Made(heap: seq<Object>, o: Object) {
    o.id < |heap| && heap[o.id] == o
  }

  class SymbolTable {
    const symbolTable: WeakSet<Object>
    const newSymbols: WeakSet<Object>
    var heap: seq<Object>

    ghost predicate Valid()
      reads this, symbolTable, symbolTable.slots, newSymbols, newSymbols.slots
    {
      && symbolTable != newSymbols && symbolTable.slots != newSymbols.slots
      && symbolTable.Valid() && newSymbols.Valid() && newSymbols.slots.Length > 0
      && symbolTable.comparing == newSymbols.comparing == SymbolComparing()
      && IsHeap(heap)
      && (forall k :: k in symbolTable.Elements() ==> Made(heap, symbolTable.Elements()[k]))
      && (forall k :: k in newSymbols.Elements() ==> Made(heap, newSymbols.Elements()[k]))
    }

    ghost function Snapshot(): Tables
      requires Valid()
      reads this, symbolTable, symbolTable.slots, newSymbols, newSymbols.slots
    {
      Tables(symbolTable.Elements(), newSymbols.Elements())
    }

    constructor ()
      ensures Valid() && fresh(symbolTable) && fresh(symbolTable.slots)
      ensures fresh(newSymbols) && fresh(newSymbols.slots)
      ensures Snapshot() == Tables(map[], map[])
    {
      var flag, otherFlag := Plain(0), Plain(1);
      newSymbols := new WeakSet(128, flag, SymbolComparing());
      symbolTable := new WeakSet(16, otherFlag, SymbolComparing());
      heap := [flag, otherFlag];
    }

    /** Looks for the symbol in both sets, the symbol table first. */
    method FindSymbol(text: Object) returns (found: Option<Object>)
      requires Valid() && !text.Plain?
      ensures found == SymbolOf(Snapshot(), text.data)
      ensures var first, second := symbolTable.Elements(), newSymbols.Elements();
              found == if Name(text.data) in first then Some(first[Name(text.data)])
                       else if Name(text.data) in second then Some(second[Name(text.data)]) else None
      ensures found.Some? ==> Made(heap, found.value) && Interns(Snapshot(), text, found.value, Snapshot())
    {
      NamesAreBytes(text, text.data);
      found := symbolTable.Find(text);
      if found.None? {
        found := newSymbols.Find(text);
      }
      if found.Some? {
        EqualsExactly(text, found.value);
      }
    }

    /** The text itself when it is a symbol, or a new symbol with its bytes. */
    method AsSymbol(text: Object) returns (symbol: Object)
      requires Valid() && Made(heap, text) && !text.Plain?
      modifies this`heap
      ensures Valid() && old(heap) <= heap && Made(heap, symbol) && Snapshot() == old(Snapshot())
      ensures symbol == if text.ByteSymbol? then text else ByteSymbol(|old(heap)|, text.data)
    {
      if text.ByteSymbol? {
        return text;
      }
      symbol := ByteSymbol(|heap|, text.data);
      heap := heap + [symbol];
    }

    method InternString(text: Object) returns (symbol: Object)
      requires Valid() && Made(heap, text) && !text.Plain?
      modifies this, newSymbols, newSymbols.slots
      ensures Valid() && old(heap) <= heap && Made(heap, symbol)
      ensures Interns(old(Snapshot()), text, symbol, Snapshot())
      ensures SymbolOf(old(Snapshot()), text.data).None? ==>
                symbol == if text.ByteSymbol? then text else ByteSymbol(|old(heap)|, text.data)
      ensures newSymbols.slots == old(newSymbols.slots) || fresh(newSymbols.slots)
    {
      hide Interns, SymbolOf, IsHeap, WeakSet.Valid, WeakSet.Elements;
      ghost var t := Snapshot();
      var found := FindSymbol(text);
      if found.Some? {
        return found.value;
      }
      symbol := AsSymbol(text);
      AddingInterns(t, text, symbol);
      newSymbols.Add(symbol);
    }

    method InternCString(data: seq<Byte>) returns (symbol: Object)
      requires Valid()
      modifies this, newSymbols, newSymbols.slots
      ensures Valid() && old(heap) <= heap && Made(heap, symbol)
      ensures symbol.ByteSymbol? && symbol.data == data
      ensures Interns(old(Snapshot()), ByteSymbol(|old(heap)|, data), symbol, Snapshot())
      ensures newSymbols.slots == old(newSymbols.slots) || fresh(newSymbols.slots)
    {
      var text := ByteSymbol(|heap|, data);
      heap := heap + [text];
      symbol := InternString(text);
    }
  }

  /** A run of internings: between ts[i] and ts[i + 1], text i is interned as symbol i. */
  ghost predicate Run(ts: seq<Tables>, texts: seq<Object>, symbols: seq<Object>) {
    && |texts| == |symbols| && |ts| == |texts| + 1
    && forall i :: 0 <= i < |texts| ==> Interns(ts[i], texts[i], symbols[i], ts[i + 1])
  }

  /** A symbol once answered stays the symbol of its bytes. */
  lemma {:induction false} SymbolStays(ts: seq<Tables>, texts: seq<Object>, symbols: seq<Object>, i: nat, j: nat)
    requires Run(ts, texts, symbols) && i < j <= |texts|
    ensures SymbolOf(ts[j], Bytes(texts[i])) == Some(symbols[i])
    decreases j
  {
    assert Interns(ts[j - 1], texts[j - 1], symbols[j - 1], ts[j]);
    if i < j - 1 {
      SymbolStays(ts, texts, symbols, i, j - 1);
      if Bytes(texts[j - 1]) == Bytes(texts[i]) {
        assert SymbolOf(ts[j - 1], Bytes(texts[i])).Some?;
      }
    }
  }

  /** Interning is canonical over every run: the same symbol is answered exactly for the same bytes. */
  lemma InterningIsCanonical(ts: seq<Tables>, texts: seq<Object>, symbols: seq<Object>, i: nat, j: nat)
    requires Run(ts, texts, symbols) && i < |texts| && j < |texts|
    ensures symbols[i] == symbols[j] <==> Bytes(texts[i]) == Bytes(texts[j])
  {
    SymbolStays(ts, texts, symbols, i, |texts|);
    SymbolStays(ts, texts, symbols, j, |texts|);
    assert Interns(ts[i], texts[i], symbols[i], ts[i + 1]) && Interns(ts[j], texts[j], symbols[j], ts[j + 1]);
  }

  /** Interning a symbol that was answered before answers that symbol, whatever was interned since. */
  lemma InterningIsIdempotent(ts: seq<Tables>, texts: seq<Object>, symbols: seq<Object>, i: nat, j: nat)
    requires Run(ts, texts, symbols) && i < j < |texts| && texts[j] == symbols[i]
    ensures symbols[j] == symbols[i]
  {
    assert Interns(ts[i], texts[i], symbols[i], ts[i + 1]);
    InterningIsCanonical(ts, texts, symbols, i, j);
  }
}
