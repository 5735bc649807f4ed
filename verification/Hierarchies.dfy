/** The classes of the image: their superclasses, their methods, and the table that knows them by index. */
module Hierarchies {
  import opened Oops
  import opened Probing
  import Bits

  type Selector = Key<Oop>

  /** What a behavior says, where other behaviors are known by the order in which they were made. */
  datatype Node = Node(superclass: Option<nat>, methods: Option<map<Selector, Oop>>, classIndex: nat, identityHash: nat)

  // ---- Lookup ----

  /** Every superclass was made before its subclasses, so no chain of superclasses comes back. */
  ghost predicate Acyclic(h: seq<Node>) {
    forall i :: 0 <= i < |h| && h[i].superclass.Some? ==> h[i].superclass.value < i
  }

  function Own(node: Node, k: Selector): Oop {
    if node.methods.Some? && k in node.methods.value then node.methods.value[k] else NIL
  }

  /** The classes from one class up to the root. */
  ghost function Chain(h: seq<Node>, i: Option<nat>): seq<nat>
    requires Acyclic(h) && (i.Some? ==> i.value < |h|)
    decreases if i.Some? then i.value + 1 else 0
  {
    if i.None? then [] else [i.value] + Chain(h, h[i.value].superclass)
  }

  /** The nearest class up the chain that has a method for the selector. */
  ghost function Binder(h: seq<Node>, i: Option<nat>, k: Selector): Option<nat>
    requires Acyclic(h) && (i.Some? ==> i.value < |h|)
    decreases if i.Some? then i.value + 1 else 0
  {
    if i.None? then None
    else if Own(h[i.value], k) != NIL then i
    else Binder(h, h[i.value].superclass, k)
  }

  ghost function Lookup(h: seq<Node>, i: Option<nat>, k: Selector): Oop
    requires Acyclic(h) && (i.Some? ==> i.value < |h|)
  {
    var b := Binder(h, i, k);
    if b.Some? && b.value < |h| then Own(h[b.value], k) else NIL
  }

  /** The binder is the first class of the chain with a method, and there is none exactly when no class has one. */
  lemma {:induction false} BinderIsNearest(h: seq<Node>, i: Option<nat>, k: Selector)
    requires Acyclic(h) && (i.Some? ==> i.value < |h|)
    ensures var chain := Chain(h, i);
            && (forall p :: 0 <= p < |chain| ==> chain[p] < |h|)
            && (Binder(h, i, k).None? <==> forall p :: 0 <= p < |chain| ==> Own(h[chain[p]], k) == NIL)
            && (Binder(h, i, k).None? <==> Lookup(h, i, k) == NIL)
            && (Binder(h, i, k).Some? ==>
                  exists p :: 0 <= p < |chain| && Binder(h, i, k) == Some(chain[p]) && Own(h[chain[p]], k) != NIL
                              && Lookup(h, i, k) == Own(h[chain[p]], k)
                              && forall q :: 0 <= q < p ==> Own(h[chain[q]], k) == NIL)
    decreases if i.Some? then i.value + 1 else 0
  {
    if i.Some? {
      var up := h[i.value].superclass;
      BinderIsNearest(h, up, k);
      var chain, rest := Chain(h, i), Chain(h, up);
      assert chain == [i.value] + rest;
      assert forall p :: 0 < p < |chain| ==> chain[p] == rest[p - 1];
      if Own(h[i.value], k) != NIL {
        assert chain[0] == i.value;
      } else if Binder(h, up, k).Some? {
        var p :| 0 <= p < |rest| && Binder(h, up, k) == Some(rest[p]) && Own(h[rest[p]], k) != NIL
                 && forall q :: 0 <= q < p ==> Own(h[rest[q]], k) == NIL;
        assert chain[p + 1] == rest[p];
        forall q | 0 <= q < p + 1 ensures Own(h[chain[q]], k) == NIL {
          if q > 0 {
            assert chain[q] == rest[q - 1];
          }
        }
      } else {
        forall p | 0 <= p < |chain| ensures Own(h[chain[p]], k) == NIL {
          if p > 0 {
            assert chain[p] == rest[p - 1];
          }
        }
      }
    }
  }

  function WithMethod(h: seq<Node>, c: nat, k: Selector, compiled: Oop): (h': seq<Node>)
    requires c < |h| && h[c].methods.Some?
    ensures |h'| == |h|
  {
    h[c := h[c].(methods := Some(h[c].methods.value[k := compiled]))]
  }

  /**
   * Registering a method in a class makes it the binder of that selector for the classes below it that had no
   * binder, or none before it; no other lookup changes.
   */
  lemma {:induction false} RegisteringChangesLookup(h: seq<Node>, c: nat, k: Selector, compiled: Oop,
                                                    i: Option<nat>, k': Selector)
    requires Acyclic(h) && (i.Some? ==> i.value < |h|) && c < |h| && h[c].methods.Some? && compiled != NIL
    ensures var h' := WithMethod(h, c, k, compiled);
            && Acyclic(h')
            && Chain(h', i) == Chain(h, i)
            && Binder(h', i, k')
            == (if k' == k && c in Chain(h, i) && (Binder(h, i, k).None? || Binder(h, i, k).value <= c)
                then Some(c) else Binder(h, i, k'))
            && Lookup(h', i, k') == (if k' == k && Binder(h', i, k) == Some(c) then compiled else Lookup(h, i, k'))
    decreases if i.Some? then i.value + 1 else 0
  {
    var h' := WithMethod(h, c, k, compiled);
    assert forall j :: 0 <= j < |h| ==> h'[j].superclass == h[j].superclass;
    if i.Some? {
      var up := h[i.value].superclass;
      RegisteringChangesLookup(h, c, k, compiled, up, k');
      ChainDescends(h, up);
      BinderInChain(h, up, k');
      assert Own(h'[i.value], k') == if i.value == c && k' == k then compiled else Own(h[i.value], k');
    }
  }

  /** Chains only go to classes made earlier. */
  lemma {:induction false} ChainDescends(h: seq<Node>, i: Option<nat>)
    requires Acyclic(h) && (i.Some? ==> i.value < |h|)
    ensures forall c :: c in Chain(h, i) ==> i.Some? && c <= i.value
    decreases if i.Some? then i.value + 1 else 0
  {
    if i.Some? {
      ChainDescends(h, h[i.value].superclass);
    }
  }

  lemma {:induction false} BinderInChain(h: seq<Node>, i: Option<nat>, k: Selector)
    requires Acyclic(h) && (i.Some? ==> i.value < |h|)
    ensures Binder(h, i, k).Some? ==> Binder(h, i, k).value in Chain(h, i)
    decreases if i.Some? then i.value + 1 else 0
  {
    if i.Some? {
      BinderInChain(h, h[i.value].superclass, k);
    }
  }

  /** Making more classes changes no chain and no lookup of the classes there were. */
  lemma {:induction false} NewNodesKeepLookup(h: seq<Node>, more: seq<Node>, i: Option<nat>, k: Selector)
    requires Acyclic(h) && Acyclic(h + more) && (i.Some? ==> i.value < |h|)
    ensures Chain(h + more, i) == Chain(h, i)
    ensures Binder(h + more, i, k) == Binder(h, i, k) && Lookup(h + more, i, k) == Lookup(h, i, k)
    decreases if i.Some? then i.value + 1 else 0
  {
    if i.Some? {
      NewNodesKeepLookup(h, more, h[i.value].superclass, k);
      BinderIsNearest(h, i, k);
    }
  }

  // ---- The class table ----

  const TABLE_PAGE: nat := 1024
  const FIRST_CLASS_INDEX: nat := 512
  const PROTO_OBJECT: nat := 150
  const CLASS: nat := 154
  const METACLASS: nat := 155

  /** Where the class table keeps a class index: a page of 4096 indices has only 1024 entries. */
  function TableSlot(classIndex: nat): (nat, nat) {
    (classIndex / 4096, classIndex % TABLE_PAGE)
  }

  /** So two indices share an entry exactly when they are in one page of 4096 and a multiple of 1024 apart. */
  lemma TableAliases(a: nat, b: nat)
    ensures TableSlot(a) == TableSlot(b) <==> a / 4096 == b / 4096 && exists n: int :: a == b + TABLE_PAGE * n
  {
    if a % TABLE_PAGE == b % TABLE_PAGE {
      assert a == b + TABLE_PAGE * (a / TABLE_PAGE - b / TABLE_PAGE);
    }
    forall n: int | a == b + TABLE_PAGE * n ensures a % TABLE_PAGE == b % TABLE_PAGE {
      Bits.SameRemainder(a, b, TABLE_PAGE, n);
    }
  }

  /** The indices below which no two share an entry are exactly those up to 1024. */
  lemma TableIsFaithful(limit: nat)
    ensures (forall a: nat, b: nat :: a < limit && b < limit && TableSlot(a) == TableSlot(b) ==> a == b)
       <==> limit <= TABLE_PAGE
  {
    if limit > TABLE_PAGE {
      assert TableSlot(0) == TableSlot(TABLE_PAGE);
    } else {
      forall a: nat | a < limit ensures TableSlot(a) == (0, a) {
        Bits.ModSmall(a, 4096);
        Bits.ModSmall(a, TABLE_PAGE);
      }
    }
  }

  // ---- Making classes ----

  /** The behaviors in the order they were made, the first page of the class table, and the global classes. */
  datatype World = World(nodes: seq<Node>, table: seq<Option<nat>>, registered: nat, globals: map<Oop, nat>)

  predicate IsClass(node: Node) { node.classIndex != METACLASS }

  /** The class of a behavior, by the class index in its header. */
  function ClassOf(w: World, i: nat): Option<nat>
    requires i < |w.nodes|
  {
    if w.nodes[i].classIndex < |w.table| then w.table[w.nodes[i].classIndex] else None
  }

  /** A class has a metaclass of its own, registered under an index that is not given out again. */
  ghost predicate HasMetaclass(w: World, c: nat)
    requires c < |w.nodes|
  {
    && w.nodes[c].classIndex < FIRST_CLASS_INDEX + w.registered
    && ClassOf(w, c).Some? && ClassOf(w, c).value < |w.nodes| && !IsClass(w.nodes[ClassOf(w, c).value])
  }

  /** The superclass of the metaclass is the metaclass of the superclass, and Class for the metaclass of the root. */
  ghost predicate Parallel(w: World, c: nat)
    requires c < |w.nodes| && HasMetaclass(w, c)
  {
    var s := w.nodes[c].superclass;
    if s.None? then CLASS < |w.table| && w.nodes[ClassOf(w, c).value].superclass == w.table[CLASS]
    else
      && s.value < |w.nodes| && IsClass(w.nodes[s.value])
      && ClassOf(w, s.value).Some? && w.nodes[ClassOf(w, c).value].superclass == ClassOf(w, s.value)
  }

  ghost predicate Sound(w: World) {
    && Acyclic(w.nodes) && |w.table| == TABLE_PAGE && FIRST_CLASS_INDEX + w.registered <= TABLE_PAGE
    && (forall e :: 0 <= e < TABLE_PAGE && w.table[e].Some? ==> w.table[e].value < |w.nodes|)
    && (forall name :: name in w.globals ==> w.globals[name] < |w.nodes| && IsClass(w.nodes[w.globals[name]]))
    && (forall c :: 0 <= c < |w.nodes| && IsClass(w.nodes[c]) ==> HasMetaclass(w, c) && Parallel(w, c))
  }

  /** Registering a behavior gives it the next class index. */
  function Register(w: World, i: nat): World
    requires i < |w.nodes| && |w.table| == TABLE_PAGE && FIRST_CLASS_INDEX + w.registered < TABLE_PAGE
  {
    var e := FIRST_CLASS_INDEX + w.registered;
    w.(nodes := w.nodes[i := w.nodes[i].(identityHash := e)],
       table := w.table[e := Some(i)], registered := w.registered + 1)
  }

  /** A new behavior without superclass, whose class has the given index. */
  function Add(w: World, classIndex: nat): World {
    w.(nodes := w.nodes + [Node(None, None, classIndex, 0)])
  }

  function Link(w: World, i: nat, superclass: Option<nat>): World
    requires i < |w.nodes|
  {
    w.(nodes := w.nodes[i := w.nodes[i].(superclass := superclass, methods := Some(map[]))])
  }

  /** A metaclass below the class of the superclass, and a class that is its only instance. */
  function NewClass(w: World, superclass: nat, name: Oop): World
    requires |w.table| == TABLE_PAGE && FIRST_CLASS_INDEX + w.registered + 2 <= TABLE_PAGE && superclass < |w.nodes|
  {
    var m := |w.nodes|;
    var w1 := Link(Register(Add(w, METACLASS), m), m, ClassOf(w, superclass));
    var w2 := Link(Register(Add(w1, w1.nodes[m].identityHash), m + 1), m + 1, Some(superclass));
    w2.(globals := w2.globals[name := m + 1])
  }

  /** A class that is not there yet is made together with its metaclass; without its superclass there is none. */
  function Subclass(w: World, superName: Oop, name: Oop): (World, Option<nat>)
    requires Sound(w) && FIRST_CLASS_INDEX + w.registered + 2 <= TABLE_PAGE
  {
    if name in w.globals then (w, Some(w.globals[name]))
    else if superName !in w.globals then (w, None)
    else
      (NewClass(w, w.globals[superName], name), Some(|w.nodes| + 1))
  }

  /** What making a new class comes to: two new nodes, at the next two indices of the table. */
  lemma SubclassIs(w: World, superName: Oop, name: Oop)
    requires Sound(w) && FIRST_CLASS_INDEX + w.registered + 2 <= TABLE_PAGE
    requires name !in w.globals && superName in w.globals
    ensures var s, n, e := w.globals[superName], |w.nodes|, FIRST_CLASS_INDEX + w.registered;
            var meta := Node(ClassOf(w, s), Some(map[]), METACLASS, e);
            var clazz := Node(Some(s), Some(map[]), e, e + 1);
            && Subclass(w, superName, name).1 == Some(n + 1)
            && Subclass(w, superName, name).0 == World(
                 w.nodes + [meta, clazz], w.table[e := Some(n)][e + 1 := Some(n + 1)],
                 w.registered + 2, w.globals[name := n + 1])
  {
    var s, n, e := w.globals[superName], |w.nodes|, FIRST_CLASS_INDEX + w.registered;
    var meta := Node(ClassOf(w, s), Some(map[]), METACLASS, e);
    var w1 := Link(Register(Add(w, METACLASS), n), n, ClassOf(w, s));
    assert w1.nodes == w.nodes + [meta];
    var clazz := Node(Some(s), Some(map[]), e, e + 1);
    assert w1.nodes + [clazz] == w.nodes + [meta, clazz];
  }

  lemma NewClassKeepsSound(w: World, w': World, name: Oop, s: nat)
    requires Sound(w) && FIRST_CLASS_INDEX + w.registered + 2 <= TABLE_PAGE && s < |w.nodes| && IsClass(w.nodes[s])
    requires var n, e := |w.nodes|, FIRST_CLASS_INDEX + w.registered;
             var meta := Node(ClassOf(w, s), Some(map[]), METACLASS, e);
             var clazz := Node(Some(s), Some(map[]), e, e + 1);
             w' == World(w.nodes + [meta, clazz], w.table[e := Some(n)][e + 1 := Some(n + 1)],
                         w.registered + 2, w.globals[name := n + 1])
    ensures Sound(w')
    ensures ClassOf(w', |w.nodes| + 1) == Some(|w.nodes|)
    ensures forall c :: 0 <= c < |w.nodes| && IsClass(w.nodes[c]) ==> ClassOf(w', c) == ClassOf(w, c)
  {
    assert HasMetaclass(w, s);
    forall c | 0 <= c < |w.nodes| && IsClass(w.nodes[c])
      ensures HasMetaclass(w', c) && ClassOf(w', c) == ClassOf(w, c)
    {
      assert HasMetaclass(w, c);
    }
    forall c | 0 <= c < |w'.nodes| && IsClass(w'.nodes[c]) ensures HasMetaclass(w', c) && Parallel(w', c) {
      if c < |w.nodes| {
        assert Parallel(w, c);
      }
    }
  }

  /**
   * Making a class keeps all invariants and all lookups.  The new class and its metaclass inherit the
   * methods of the superclass and of its metaclass.
   */
  lemma SubclassKeepsSound(w: World, superName: Oop, name: Oop)
    requires Sound(w) && FIRST_CLASS_INDEX + w.registered + 2 <= TABLE_PAGE
    ensures var (w', c) := Subclass(w, superName, name);
            && Sound(w') && w.nodes <= w'.nodes
            && (forall i: Option<nat>, k: Selector :: (i.Some? ==> i.value < |w.nodes|) ==>
                  Lookup(w'.nodes, i, k) == Lookup(w.nodes, i, k))
            && (c.None? <==> name !in w.globals && superName !in w.globals)
            && (name in w.globals ==> w' == w && c == Some(w.globals[name]))
            && (c.None? ==> w' == w)
            && (c.Some? ==> w'.globals == w.globals[name := c.value])
            && (c.Some? && name !in w.globals ==>
                  && w'.nodes[c.value].superclass == Some(w.globals[superName])
                  && forall k: Selector ::
                       && Lookup(w'.nodes, c, k) == Lookup(w.nodes, Some(w.globals[superName]), k)
                       && Lookup(w'.nodes, ClassOf(w', c.value), k)
                       == Lookup(w.nodes, ClassOf(w, w.globals[superName]), k))
  {
    hide Sound, Lookup, Acyclic, NewClass;
    if name in w.globals {
      assert w.globals[name := w.globals[name]] == w.globals;
    } else if superName in w.globals {
      var (w', c) := Subclass(w, superName, name);
      SuperclassIsThere(w, superName);
      SubclassIs(w, superName, name);
      NewClassKeepsSound(w, w', name, w.globals[superName]);
      NewClassInherits(w, w', name, w.globals[superName]);
    }
  }

  lemma SuperclassIsThere(w: World, superName: Oop)
    requires Sound(w) && superName in w.globals
    ensures w.globals[superName] < |w.nodes| && IsClass(w.nodes[w.globals[superName]])
  {
  }

  /** A new class changes no lookup of others, and inherits all that it and its metaclass answer. */
  lemma NewClassInherits(w: World, w': World, name: Oop, s: nat)
    requires Sound(w) && FIRST_CLASS_INDEX + w.registered + 2 <= TABLE_PAGE && s < |w.nodes| && IsClass(w.nodes[s])
    requires var n, e := |w.nodes|, FIRST_CLASS_INDEX + w.registered;
             var meta := Node(ClassOf(w, s), Some(map[]), METACLASS, e);
             var clazz := Node(Some(s), Some(map[]), e, e + 1);
             w' == World(w.nodes + [meta, clazz], w.table[e := Some(n)][e + 1 := Some(n + 1)],
                         w.registered + 2, w.globals[name := n + 1])
    requires Sound(w') && ClassOf(w', |w.nodes| + 1) == Some(|w.nodes|)
    ensures forall i: Option<nat>, k: Selector :: (i.Some? ==> i.value < |w.nodes|) ==>
              Lookup(w'.nodes, i, k) == Lookup(w.nodes, i, k)
    ensures forall k: Selector ::
              && Lookup(w'.nodes, Some(|w.nodes| + 1), k) == Lookup(w.nodes, Some(s), k)
              && Lookup(w'.nodes, ClassOf(w', |w.nodes| + 1), k) == Lookup(w.nodes, ClassOf(w, s), k)
  {
    var n, more := |w.nodes|, w'.nodes[|w.nodes|..];
    assert w'.nodes == w.nodes + more;
    SuperMetaclassIsThere(w, s);
    hide Sound, ClassOf;
    forall i: Option<nat>, k | i.Some? ==> i.value < n ensures Lookup(w'.nodes, i, k) == Lookup(w.nodes, i, k) {
      NewNodesKeepLookup(w.nodes, more, i, k);
    }
  }

  lemma SuperMetaclassIsThere(w: World, s: nat)
    requires Sound(w) && s < |w.nodes| && IsClass(w.nodes[s])
    ensures ClassOf(w, s).Some? && ClassOf(w, s).value < |w.nodes|
  {
    assert HasMetaclass(w, s);
  }

  // ---- Registering methods, and runs ----

  /** The behavior that the methods of the class or the metaclass side of a global class go to. */
  function Side(w: World, className: Oop, classSide: bool): Option<nat>
    requires Sound(w)
  {
    if className !in w.globals then None
    else if classSide then
      assert HasMetaclass(w, w.globals[className]);
      ClassOf(w, w.globals[className])
    else Some(w.globals[className])
  }

  lemma SideIs(w: World, className: Oop, classSide: bool)
    requires Sound(w) && className in w.globals && w.globals[className] < |w.nodes|
    ensures Side(w, className, classSide)
         == if classSide then ClassOf(w, w.globals[className]) else Some(w.globals[className])
  {
  }

  lemma SideIsThere(w: World, className: Oop, classSide: bool)
    requires Sound(w)
    ensures var b := Side(w, className, classSide);
            && (b.Some? <==> className in w.globals)
            && (b.Some? ==> b.value < |w.nodes| && (IsClass(w.nodes[b.value]) <==> !classSide))
  {
    if className in w.globals {
      assert HasMetaclass(w, w.globals[className]);
    }
  }

  datatype Op =
    | Create(superName: Oop, name: Oop)
    | Define(className: Oop, classSide: bool, selector: Selector, compiled: Oop)

  /** Class indices stay below 1024, and methods are registered where there is a dictionary. */
  ghost predicate Allowed(w: World, op: Op)
    requires Sound(w)
  {
    match op
    case Create(_, _) => FIRST_CLASS_INDEX + w.registered + 2 <= TABLE_PAGE
    case Define(className, classSide, _, compiled) =>
      var b := Side(w, className, classSide);
      compiled != NIL && (b.Some? ==> b.value < |w.nodes| && w.nodes[b.value].methods.Some?)
  }

  ghost function Apply(w: World, op: Op): World
    requires Sound(w) && Allowed(w, op)
  {
    match op
    case Create(superName, name) => Subclass(w, superName, name).0
    case Define(className, classSide, selector, compiled) =>
      var b := Side(w, className, classSide);
      if b.None? then w else w.(nodes := WithMethod(w.nodes, b.value, selector, compiled))
  }

  lemma DefiningKeepsSound(w: World, b: nat, k: Selector, compiled: Oop)
    requires Sound(w) && b < |w.nodes| && w.nodes[b].methods.Some?
    ensures Sound(w.(nodes := WithMethod(w.nodes, b, k, compiled)))
  {
    var w' := w.(nodes := WithMethod(w.nodes, b, k, compiled));
    assert forall i :: 0 <= i < |w.nodes| ==> w'.nodes[i] == w.nodes[i].(methods := w'.nodes[i].methods);
    forall c | 0 <= c < |w'.nodes| && IsClass(w'.nodes[c]) ensures HasMetaclass(w', c) && Parallel(w', c) {
      assert HasMetaclass(w, c) && Parallel(w, c);
    }
  }

  /**
   * A method that was registered is what the class answers for the selector, or on the class side what the behavior
   * answers that the table has for its class index.  Nothing else has changed.
   */
  lemma DefinedIsFound(w: World, className: Oop, classSide: bool, k: Selector, compiled: Oop)
    requires Sound(w) && className in w.globals && Allowed(w, Define(className, classSide, k, compiled))
    ensures var w' := Apply(w, Define(className, classSide, k, compiled));
            var t := w.globals[className];
            && Sound(w') && |w'.nodes| == |w.nodes| && t < |w.nodes| && w.nodes[t].classIndex < |w.table|
            && w' == w.(nodes := w'.nodes)
            && var b := if classSide then w.table[w.nodes[t].classIndex] else Some(t);
            && b.Some? && b.value < |w.nodes| && w.nodes[b.value].methods.Some?
            && Lookup(w'.nodes, b, k) == compiled
            && (forall j :: 0 <= j < |w.nodes| && j != b.value ==> w'.nodes[j] == w.nodes[j])
            && w'.nodes[b.value]
            == w.nodes[b.value].(methods := Some(w.nodes[b.value].methods.value[k := compiled]))
  {
    var t := w.globals[className];
    assert HasMetaclass(w, t);
    var b := Side(w, className, classSide);
    SideIsThere(w, className, classSide);
    DefiningKeepsSound(w, b.value, k, compiled);
    hide Sound;
    assert Own(WithMethod(w.nodes, b.value, k, compiled)[b.value], k) == compiled;
  }

  /** A run of classes made and methods registered, through all the worlds in between. */
  ghost predicate Run(ws: seq<World>, ops: seq<Op>) {
    && |ws| == |ops| + 1 && Sound(ws[0])
    && forall i :: 0 <= i < |ops| ==> Sound(ws[i]) ==> Allowed(ws[i], ops[i]) && ws[i + 1] == Apply(ws[i], ops[i])
  }

  /** Every run keeps the superclasses without cycles and the metaclasses parallel to the classes. */
  lemma {:induction false} RunKeepsSound(ws: seq<World>, ops: seq<Op>, n: nat)
    requires Run(ws, ops) && n <= |ops|
    ensures Sound(ws[n]) && |ws[0].nodes| <= |ws[n].nodes|
  {
    if n > 0 {
      RunKeepsSound(ws, ops, n - 1);
      var w, op := ws[n - 1], ops[n - 1];
      assert ws[n] == Apply(w, op);
      match op
      case Create(superName, name) => SubclassKeepsSound(w, superName, name);
      case Define(className, classSide, selector, compiled) =>
        var b := Side(w, className, classSide);
        if b.Some? {
          DefiningKeepsSound(w, b.value, selector, compiled);
        }
    }
  }

  /** The metaclasses of all superclasses of a class are superclasses of its metaclass. */
  lemma {:induction false} MetaclassesAreParallel(w: World, c: nat, a: nat)
    requires Sound(w) && c < |w.nodes| && IsClass(w.nodes[c]) && a in Chain(w.nodes, Some(c))
    ensures a <= c && IsClass(w.nodes[a]) && ClassOf(w, a).Some? && ClassOf(w, c).Some?
    ensures ClassOf(w, c).value < |w.nodes| && ClassOf(w, a).value in Chain(w.nodes, ClassOf(w, c))
    decreases c
  {
    assert HasMetaclass(w, c) && Parallel(w, c);
    var s := w.nodes[c].superclass;
    if a != c {
      assert a in Chain(w.nodes, s);
      MetaclassesAreParallel(w, s.value, a);
      assert Chain(w.nodes, ClassOf(w, c)) == [ClassOf(w, c).value] + Chain(w.nodes, ClassOf(w, s.value));
    }
  }

  /** All metaclasses inherit from Class, through the metaclass of the root. */
  lemma {:induction false} MetaclassesInheritFromClass(w: World, c: nat)
    requires Sound(w) && c < |w.nodes| && IsClass(w.nodes[c]) && w.table[CLASS].Some?
    ensures ClassOf(w, c).Some? && ClassOf(w, c).value < |w.nodes|
    ensures w.table[CLASS].value in Chain(w.nodes, ClassOf(w, c))
    decreases c
  {
    assert HasMetaclass(w, c) && Parallel(w, c);
    var s := w.nodes[c].superclass;
    if s.Some? {
      MetaclassesInheritFromClass(w, s.value);
    }
  }

  /** So a class understands what any superclass understands on the class side, unless one in between says otherwise. */
  lemma ClassSideIsInherited(w: World, c: nat, a: nat, k: Selector)
    requires Sound(w) && c < |w.nodes| && IsClass(w.nodes[c]) && a in Chain(w.nodes, Some(c))
    requires a < |w.nodes| && ClassOf(w, a).Some? && ClassOf(w, a).value < |w.nodes|
    requires Own(w.nodes[ClassOf(w, a).value], k) != NIL
    ensures ClassOf(w, c).Some? && ClassOf(w, c).value < |w.nodes|
    ensures Lookup(w.nodes, ClassOf(w, c), k) != NIL
  {
    MetaclassesAreParallel(w, c, a);
    BinderIsNearest(w.nodes, ClassOf(w, c), k);
  }

  // ---- The kernel classes ----

  const KERNEL_CLASSES: nat := 6

  /** ProtoObject, Object, Behavior, ClassDescription, Class and Metaclass, and then their metaclasses. */
  function KernelNode(i: nat): Node
    requires i < 2 * KERNEL_CLASSES
  {
    if i == 0 then Node(None, None, 256 + PROTO_OBJECT, PROTO_OBJECT)
    else if i < 5 then Node(Some(i - 1), None, 256 + PROTO_OBJECT + i, PROTO_OBJECT + i)
    else if i == 5 then Node(Some(3), None, 256 + METACLASS, METACLASS)
    else if i == 6 then Node(Some(4), None, METACLASS, 256 + PROTO_OBJECT)
    else if i < 11 then Node(Some(i - 1), None, METACLASS, 250 + PROTO_OBJECT + i)
    else Node(Some(9), None, METACLASS, 256 + METACLASS)
  }

  function KernelNodes(): (nodes: seq<Node>)
    ensures |nodes| == 2 * KERNEL_CLASSES
  {
    seq(2 * KERNEL_CLASSES, i requires 0 <= i < 2 * KERNEL_CLASSES => KernelNode(i))
  }

  lemma KernelPrefix(i: nat)
    requires i < 2 * KERNEL_CLASSES
    ensures KernelNodes()[..0] == [] && KernelNodes()[..2 * KERNEL_CLASSES] == KernelNodes()
    ensures KernelNodes()[..i] + [KernelNode(i)] == KernelNodes()[..i + 1]
    ensures KernelNode(i).superclass.Some? ==> KernelNode(i).superclass.value < i
  {
  }

  /** The kernel classes are in the table by their indices, and their metaclasses 256 further. */
  function KernelEntry(e: nat): Option<nat> {
    if PROTO_OBJECT <= e < PROTO_OBJECT + KERNEL_CLASSES then Some(e - PROTO_OBJECT)
    else if 256 + PROTO_OBJECT <= e < 256 + PROTO_OBJECT + KERNEL_CLASSES then Some(e - 250 - PROTO_OBJECT)
    else None
  }

  function Kernel(): World {
    World(KernelNodes(), seq(TABLE_PAGE, e requires 0 <= e < TABLE_PAGE => KernelEntry(e)), 0, map[])
  }

  lemma KernelIsSound()
    ensures Sound(Kernel())
    ensures Kernel().nodes[6].superclass == Kernel().table[CLASS] == Some(4)
  {
    var w := Kernel();
    forall c | 0 <= c < |w.nodes| && IsClass(w.nodes[c]) ensures HasMetaclass(w, c) && Parallel(w, c) {
      assert c < 6;
    }
  }

  /** The kernel as it is declared, class by class and then metaclass by metaclass. */
  lemma KernelHierarchy()
    ensures Kernel().nodes == [
              Node(None, None, 406, 150), Node(Some(0), None, 407, 151), Node(Some(1), None, 408, 152),
              Node(Some(2), None, 409, 153), Node(Some(3), None, 410, 154), Node(Some(3), None, 411, 155),
              Node(Some(4), None, 155, 406), Node(Some(6), None, 155, 407), Node(Some(7), None, 155, 408),
              Node(Some(8), None, 155, 409), Node(Some(9), None, 155, 410), Node(Some(9), None, 155, 411)]
    ensures Kernel().table[150..156] == [Some(0), Some(1), Some(2), Some(3), Some(4), Some(5)]
    ensures Kernel().table[406..412] == [Some(6), Some(7), Some(8), Some(9), Some(10), Some(11)]
  {
  }

  /** A kernel class gets methods and becomes a global. */
  function Initialized(w: World, i: nat, name: Oop): World
    requires i < |w.nodes|
  {
    w.(nodes := w.nodes[i := w.nodes[i].(methods := Some(map[]))], globals := w.globals[name := i])
  }

  lemma InitializingKeepsSound(w: World, i: nat, name: Oop)
    requires Sound(w) && i < |w.nodes| && IsClass(w.nodes[i])
    ensures Sound(Initialized(w, i, name))
  {
    var w' := Initialized(w, i, name);
    assert forall j :: 0 <= j < |w.nodes| ==> w'.nodes[j] == w.nodes[j].(methods := w'.nodes[j].methods);
    forall c | 0 <= c < |w'.nodes| && IsClass(w'.nodes[c]) ensures HasMetaclass(w', c) && Parallel(w', c) {
      assert HasMetaclass(w, c) && Parallel(w, c);
    }
  }
}
