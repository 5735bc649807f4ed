/** Behaviors as objects: method lookup, the class table, and the registration of classes and methods. */
module Kernel {
  import opened Oops
  import opened Probing
  import opened Hierarchies
  import opened MethodDictionaries

  class Behavior {
    var classIndex: nat
    var identityHash: nat
    var superclass: Behavior?
    var methodDict: MethodDictionary?
    var format: Oop
    var name: Oop
    var thisClass: Behavior?

    /** A new behavior has its class in its header, and nil in all slots. */
    constructor (classIndex: nat, identityHash: nat)
      ensures this.classIndex == classIndex && this.identityHash == identityHash
      ensures superclass == null && methodDict == null
    {
      this.classIndex, this.identityHash := classIndex, identityHash;
      superclass, methodDict, thisClass, format, name := null, null, null, NIL, NIL;
    }
  }

  /** The objects that make up the methods of a behavior. */
  ghost function Footprint(d: MethodDictionary?): set<object?>
    reads d
  {
    if d == null then {} else {d, d.keys, d.values}
  }

  /** The methods in a dictionary, or nil, are those of a node. */
  ghost predicate Understands(d: MethodDictionary?, methods: Option<map<Selector, Oop>>, identityHash: Oop -> nat)
    reads d, if d == null then {} else {d.keys, d.values}
  {
    if d == null then methods.None?
    else d.Valid() && d.identityHash == identityHash && methods == Some(d.Bindings())
  }

  /** A reference to a behavior, where behaviors are known by the order in which they were made. */
  ghost predicate Refers(behaviors: seq<Behavior>, b: Behavior?, i: Option<nat>) {
    if i.None? then b == null else i.value < |behaviors| && b == behaviors[i.value]
  }

  ghost function Arrays(bs: seq<Behavior>): set<array<Oop>>
    reads bs`methodDict, set b | b in bs :: b.methodDict
  {
    (set b | b in bs && b.methodDict != null :: b.methodDict.keys)
    + (set b | b in bs && b.methodDict != null :: b.methodDict.values)
  }

  ghost predicate Different(bs: seq<Behavior>) {
    forall i, j :: 0 <= i < j < |bs| ==> bs[i] != bs[j]
  }

  /** Behaviors have methods of their own. */
  ghost predicate Separate(bs: seq<Behavior>)
    reads bs`methodDict, set b | b in bs :: b.methodDict
  {
    forall i, j :: 0 <= i < j < |bs| ==> Footprint(bs[i].methodDict) !! Footprint(bs[j].methodDict)
  }

  /** The fields of the behaviors are those of their nodes. */
  ghost predicate Linked(bs: seq<Behavior>, nodes: seq<Node>)
    reads bs`classIndex, bs`identityHash, bs`superclass
  {
    && |bs| == |nodes|
    && forall i :: 0 <= i < |bs| ==>
         && bs[i].classIndex == nodes[i].classIndex && bs[i].identityHash == nodes[i].identityHash
         && Refers(bs, bs[i].superclass, nodes[i].superclass)
  }

  ghost predicate Matching(bs: seq<Behavior>, nodes: seq<Node>, identityHash: Oop -> nat)
    reads bs`methodDict, set b | b in bs :: b.methodDict
    reads set b | b in bs && b.methodDict != null :: b.methodDict.keys
    reads set b | b in bs && b.methodDict != null :: b.methodDict.values
  {
    && |bs| == |nodes|
    && forall i :: 0 <= i < |bs| ==> Understands(bs[i].methodDict, nodes[i].methods, identityHash)
  }

  /** Nodes that differ in nothing but links, or in nothing but methods, match the same methods, or links. */
  lemma SameMethods(bs: seq<Behavior>, nodes: seq<Node>, nodes': seq<Node>, identityHash: Oop -> nat)
    requires Matching(bs, nodes, identityHash) && |nodes'| == |nodes|
    requires forall i :: 0 <= i < |nodes| ==> nodes'[i].methods == nodes[i].methods
    ensures Matching(bs, nodes', identityHash)
  {
    hide Understands;
  }

  lemma SameLinks(bs: seq<Behavior>, nodes: seq<Node>, nodes': seq<Node>)
    requires Linked(bs, nodes) && |nodes'| == |nodes|
    requires forall i :: 0 <= i < |nodes| ==> nodes'[i] == nodes[i].(methods := nodes'[i].methods)
    ensures Linked(bs, nodes')
  {
    hide Refers;
  }

  /** A behavior without links and methods may be added. */
  lemma OneMore(bs: seq<Behavior>, nodes: seq<Node>, identityHash: Oop -> nat, b: Behavior)
    requires Different(bs) && Separate(bs) && Linked(bs, nodes) && Matching(bs, nodes, identityHash)
    requires b !in bs && b.identityHash == 0 && b.superclass == null && b.methodDict == null
    ensures var nodes' := nodes + [Node(None, None, b.classIndex, 0)];
            && Different(bs + [b]) && Separate(bs + [b])
            && Linked(bs + [b], nodes') && Matching(bs + [b], nodes', identityHash)
  {
  }

  /** A behavior may be added that is linked to those there are. */
  lemma LinkedToMore(bs: seq<Behavior>, nodes: seq<Node>, b: Behavior, node: Node)
    requires Linked(bs, nodes) && b.classIndex == node.classIndex && b.identityHash == node.identityHash
    requires Refers(bs, b.superclass, node.superclass) && Different(bs) && b !in bs
    ensures Linked(bs + [b], nodes + [node]) && Different(bs + [b])
  {
  }

  lemma NoneLinked()
    ensures Linked([], []) && Different([])
  {
  }

  lemma BareKernel(bs: seq<Behavior>, identityHash: Oop -> nat)
    requires |bs| == |Hierarchies.Kernel().nodes| && forall b :: b in bs ==> b.methodDict == null
    ensures Separate(bs) && Matching(bs, Hierarchies.Kernel().nodes, identityHash)
    ensures Hierarchies.Kernel().registered == 0 && Hierarchies.Kernel().globals == map[]
  {
  }

  lemma MatchingAt(bs: seq<Behavior>, nodes: seq<Node>, identityHash: Oop -> nat, i: nat)
    requires Matching(bs, nodes, identityHash) && i < |bs|
    ensures Understands(bs[i].methodDict, nodes[i].methods, identityHash)
  {
    hide Understands;
  }

  lemma RefersToMore(bs: seq<Behavior>, more: seq<Behavior>, b: Behavior?, i: Option<nat>)
    requires Refers(bs, b, i) && bs <= more
    ensures Refers(more, b, i)
  {
  }

  class ObjectModel {
    const identityHash: Oop -> nat
    const classTable: array<Behavior?>
    var classTableSize: nat
    var globals: map<Oop, Behavior>
    ghost var behaviors: seq<Behavior>
    ghost var world: World

    /** The class table and the globals hold the behaviors that the world says. */
    ghost predicate Listed(bs: seq<Behavior>, table: seq<Option<nat>>, registered: nat, names: map<Oop, nat>)
      reads this`classTableSize, this`globals, classTable
    {
      && classTable.Length == TABLE_PAGE == |table| && classTableSize == registered
      && (forall e :: 0 <= e < TABLE_PAGE ==> Refers(bs, classTable[e], table[e]))
      && globals.Keys == names.Keys
      && (forall name :: name in globals ==> Refers(bs, globals[name], Some(names[name])))
    }

    /** The objects are what the world says. */
    ghost predicate Mirrors()
      reads this, classTable, behaviors, set b | b in behaviors :: b.methodDict, Arrays(behaviors)
    {
      && |behaviors| == |world.nodes| && Listed(behaviors, world.table, world.registered, world.globals)
      && Different(behaviors) && Separate(behaviors)
      && Linked(behaviors, world.nodes) && Matching(behaviors, world.nodes, identityHash)
    }

    ghost predicate Valid()
      reads this, classTable, behaviors, set b | b in behaviors :: b.methodDict, Arrays(behaviors)
    {
      Sound(world) && Mirrors()
    }

    /** The image as it is declared: the kernel classes and their metaclasses, without methods and names. */
    constructor (identityHash: Oop -> nat)
      ensures Valid() && fresh(classTable) && world == Hierarchies.Kernel() && this.identityHash == identityHash
      ensures forall b :: b in behaviors ==> fresh(b)
    {
      hide Sound, Different, Separate, Linked, Matching, Hierarchies.Kernel, Refers;
      var table, all := DeclareKernel();
      this.identityHash := identityHash;
      classTable, classTableSize, globals := table, 0, map[];
      behaviors, world := all, Hierarchies.Kernel();
      new;
      KernelIsSound();
      BareKernel(all, identityHash);
    }

    /** The kernel classes and their metaclasses, and the table that holds them alone. */
    static method DeclareKernel() returns (table: array<Behavior?>, all: seq<Behavior>)
      ensures |all| == |Hierarchies.Kernel().nodes| && Different(all) && Linked(all, Hierarchies.Kernel().nodes)
      ensures forall b :: b in all ==> fresh(b) && b.methodDict == null
      ensures fresh(table) && table.Length == TABLE_PAGE == |Hierarchies.Kernel().table|
      ensures forall e :: 0 <= e < TABLE_PAGE ==> Refers(all, table[e], Hierarchies.Kernel().table[e])
    {
      hide Different, Linked;
      table := new Behavior?[TABLE_PAGE](_ => null);
      all := MakeKernelBehaviors();
      for i := 0 to KERNEL_CLASSES
        modifies table
        invariant forall e :: 0 <= e < TABLE_PAGE ==>
                    if (PROTO_OBJECT <= e < PROTO_OBJECT + i || 256 + PROTO_OBJECT <= e < 256 + PROTO_OBJECT + i)
                    then Refers(all, table[e], KernelEntry(e)) else table[e] == null
      {
        table[PROTO_OBJECT + i] := all[i];
        table[256 + PROTO_OBJECT + i] := all[KERNEL_CLASSES + i];
      }
    }

    static method MakeKernelBehaviors() returns (all: seq<Behavior>)
      ensures |all| == 2 * KERNEL_CLASSES && Different(all) && Linked(all, KernelNodes())
      ensures forall b :: b in all ==> fresh(b) && b.methodDict == null
    {
      hide Linked, Different, KernelNode, KernelNodes;
      all := [];
      KernelPrefix(0);
      NoneLinked();
      for i := 0 to 2 * KERNEL_CLASSES
        invariant |all| == i && Different(all) && Linked(all, KernelNodes()[..i])
        invariant forall b :: b in all ==> fresh(b) && b.methodDict == null
      {
        var node := KernelNode(i);
        KernelPrefix(i);
        var b := new Behavior(node.classIndex, node.identityHash);
        if node.superclass.Some? {
          b.superclass := all[node.superclass.value];
        }
        LinkedToMore(all, KernelNodes()[..i], b, node);
        all := all + [b];
      }
    }

    /** Gives a kernel class an empty method dictionary and its name. */
    method InitializeClass(b: Behavior, name: Oop, ghost i: nat)
      requires Valid() && i < |behaviors| && b == behaviors[i] && IsClass(world.nodes[i])
      modifies this`world, this`globals, b`methodDict, b`name
      ensures Valid() && behaviors == old(behaviors) && world == Initialized(old(world), i, name)
      ensures b.name == name && globals == old(globals)[name := b] && fresh(b.methodDict)
      ensures world.globals == old(world).globals[name := i] && world.nodes[i].methods == Some(map[])
    {
      hide Sound, Listed, Different, Separate, Linked, Matching;
      InitializingKeepsSound(world, i, name);
      SetMethodDictionary(b, i);
      SetName(b, name);
      SetGlobal(name, b, i);
    }

    /** Method lookup: goes up the superclasses, over those without methods, to the first that has the selector. */
    method Lookup(behavior: Behavior?, selector: Oop, ghost i: Option<nat>) returns (value: Oop)
      requires Valid() && selector != NIL && Refers(behaviors, behavior, i)
      ensures value == Hierarchies.Lookup(world.nodes, i, KeyOf(identityHash, selector))
    {
      ghost var j, k := i, KeyOf(identityHash, selector);
      var current := behavior;
      while current != null
        invariant Refers(behaviors, current, j)
        invariant Hierarchies.Lookup(world.nodes, j, k) == Hierarchies.Lookup(world.nodes, i, k)
        decreases if j.Some? then j.value + 1 else 0
      {
        assert Understands(current.methodDict, world.nodes[j.value].methods, identityHash);
        if current.methodDict != null {
          value := current.methodDict.AtOrNil(selector);
          if value != NIL {
            return;
          }
        }
        j := world.nodes[j.value].superclass;
        current := current.superclass;
      }
      return NIL;
    }

    /** The class of a behavior, by the index in its header. */
    method ClassOf(b: Behavior, ghost i: nat) returns (c: Behavior?)
      requires Mirrors() && i < |behaviors| && b == behaviors[i] && b.classIndex < TABLE_PAGE
      ensures Mirrors() && Refers(behaviors, c, Hierarchies.ClassOf(world, i))
    {
      return classTable[b.classIndex];
    }

    /** A behavior that was just made is the last one. */
    ghost method AddBehavior(b: Behavior)
      requires Mirrors() && b !in behaviors && b.identityHash == 0 && b.superclass == null && b.methodDict == null
      modifies this`behaviors, this`world
      ensures Mirrors() && behaviors == old(behaviors) + [b]
      ensures world == Add(old(world), b.classIndex)
    {
      hide Understands, Footprint, Different, Separate, Linked, Matching;
      OneMore(behaviors, world.nodes, identityHash, b);
      behaviors := behaviors + [b];
      world := Add(world, b.classIndex);
    }

    /** Registering gives a behavior the next class index, and puts it into the table. */
    method RegisterBehavior(b: Behavior, ghost i: nat)
      requires Mirrors() && i < |behaviors| && b == behaviors[i] && FIRST_CLASS_INDEX + classTableSize < TABLE_PAGE
      modifies this, classTable, b`identityHash
      ensures Mirrors() && behaviors == old(behaviors) && world == Register(old(world), i)
      ensures b.identityHash == world.nodes[i].identityHash == 512 + old(classTableSize)
      ensures classTableSize == old(classTableSize) + 1 && globals == old(globals)
      ensures classTable.Length == TABLE_PAGE && classTable[..] == old(classTable[..])[b.identityHash := b]
    {
      hide Understands, Footprint, Separate, Matching;
      SameMethods(behaviors, world.nodes, Register(world, i).nodes, identityHash);
      var classIndex := FIRST_CLASS_INDEX + classTableSize;
      b.identityHash := classIndex;
      classTable[classIndex] := b;
      classTableSize := classTableSize + 1;
      world := Register(world, i);
    }

    /** Gives a behavior its superclass. */
    method SetSuperclass(b: Behavior, superclass: Behavior?, ghost i: nat, ghost s: Option<nat>)
      requires Mirrors() && i < |behaviors| && b == behaviors[i] && Refers(behaviors, superclass, s)
      modifies this`world, b`superclass
      ensures Mirrors() && behaviors == old(behaviors) && b.superclass == superclass
      ensures world == old(world).(nodes := old(world).nodes[i := old(world).nodes[i].(superclass := s)])
    {
      hide Understands, Footprint, Separate, Matching, Listed;
      ghost var nodes := world.nodes[i := world.nodes[i].(superclass := s)];
      SameMethods(behaviors, world.nodes, nodes, identityHash);
      b.superclass := superclass;
      world := world.(nodes := nodes);
    }

    /** When only the methods of one behavior change, and into new objects, the methods stay separate. */
    twostate lemma StaysSeparate(i: nat)
      requires behaviors == old(behaviors) && i < |behaviors| && old(Separate(behaviors))
      requires forall j :: 0 <= j < |behaviors| && j != i ==>
                 Footprint(behaviors[j].methodDict) == old(Footprint(behaviors[j].methodDict))
      requires forall o :: o in Footprint(behaviors[i].methodDict) ==>
                 fresh(o) || o in old(Footprint(behaviors[i].methodDict))
      ensures Separate(behaviors)
    {
    }

    twostate lemma StaysMatching(i: nat)
      requires behaviors == old(behaviors) && i < |behaviors| == |world.nodes|
      requires old(Matching(behaviors, world.nodes, identityHash))
      requires forall j :: 0 <= j < |behaviors| && j != i ==>
                 (Understands(behaviors[j].methodDict, world.nodes[j].methods, identityHash)
                  <==> old(Understands(behaviors[j].methodDict, world.nodes[j].methods, identityHash)))
      requires Understands(behaviors[i].methodDict, world.nodes[i].methods, identityHash)
      ensures Matching(behaviors, world.nodes, identityHash)
    {
      hide Understands;
    }

    method NewMethodDictionary() returns (d: MethodDictionary)
      ensures Understands(d, Some(map[]), identityHash)
      ensures fresh(d) && fresh(d.keys) && fresh(d.values)
    {
      d := new MethodDictionary(5, identityHash);
    }

    /** Gives a behavior an empty method dictionary. */
    method SetMethodDictionary(b: Behavior, ghost i: nat)
      requires Mirrors() && i < |behaviors| && b == behaviors[i]
      modifies this`world, b`methodDict
      ensures Mirrors() && behaviors == old(behaviors) && fresh(b.methodDict)
      ensures world == old(world).(nodes := old(world).nodes[i := old(world).nodes[i].(methods := Some(map[]))])
    {
      hide Understands, Linked, Listed, Refers, Separate, Matching;
      ghost var nodes := world.nodes[i := world.nodes[i].(methods := Some(map[]))];
      SameLinks(behaviors, world.nodes, nodes);
      var d := NewMethodDictionary();
      b.methodDict := d;
      world := world.(nodes := nodes);
      StaysSeparate(i);
      StaysMatching(i);
    }

    method MakeBehavior(classIndex: nat, superclass: Behavior?, ghost s: Option<nat>) returns (b: Behavior)
      requires Mirrors() && FIRST_CLASS_INDEX + classTableSize < TABLE_PAGE && Refers(behaviors, superclass, s)
      modifies this, classTable
      ensures Mirrors() && fresh(b) && behaviors == old(behaviors) + [b]
      ensures var m := |old(behaviors)|;
              && world == Link(Register(Add(old(world), classIndex), m), m, s)
              && b.identityHash == world.nodes[m].identityHash == 512 + old(classTableSize)
      ensures classTableSize == old(classTableSize) + 1 && globals == old(globals)
      ensures b.superclass == superclass && b.classIndex == classIndex && fresh(b.methodDict)
      ensures classTable.Length == TABLE_PAGE && classTable[..] == old(classTable[..])[b.identityHash := b]
    {
      hide Understands, Footprint, Different, Separate, Linked, Matching, Listed, Refers;
      ghost var m, bs := |behaviors|, behaviors;
      b := new Behavior(classIndex, 0);
      AddBehavior(b);
      RefersToMore(bs, behaviors, superclass, s);
      RegisterBehavior(b, m);
      SetSuperclass(b, superclass, m, s);
      SetMethodDictionary(b, m);
    }

    method SetName(b: Behavior, name: Oop)
      requires Mirrors()
      modifies b`name
      ensures Mirrors() && b.name == name
    {
      hide Understands, Footprint, Different, Separate, Linked, Matching, Listed;
      b.name := name;
    }

    method SetFormat(b: Behavior, format: Oop)
      requires Mirrors()
      modifies b`format
      ensures Mirrors() && b.format == format
    {
      hide Understands, Footprint, Different, Separate, Linked, Matching, Listed;
      b.format := format;
    }

    method SetThisClass(metaclass: Behavior, c: Behavior)
      requires Mirrors()
      modifies metaclass`thisClass
      ensures Mirrors() && metaclass.thisClass == c
    {
      hide Understands, Footprint, Different, Separate, Linked, Matching, Listed;
      metaclass.thisClass := c;
    }

    method SetGlobal(name: Oop, c: Behavior, ghost i: nat)
      requires Mirrors() && i < |behaviors| && c == behaviors[i]
      modifies this`globals, this`world
      ensures Mirrors() && world == old(world).(globals := old(world).globals[name := i])
      ensures globals == old(globals)[name := c]
    {
      hide Understands, Footprint, Different, Separate, Linked, Matching;
      globals := globals[name := c];
      world := world.(globals := world.globals[name := i]);
    }

    /** A global class, and its class; nil when there is none of that name. */
    method FindClass(name: Oop) returns (c: Behavior?, metaclass: Behavior?)
      requires Valid()
      ensures Valid() && (c == null <==> name !in world.globals) && globals.Keys == world.globals.Keys
      ensures name in globals ==>
                c == globals[name] && c.classIndex < classTable.Length && metaclass == classTable[c.classIndex]
      ensures name in world.globals ==>
                && world.globals[name] < |world.nodes|
                && Refers(behaviors, c, Some(world.globals[name]))
                && Refers(behaviors, metaclass, Hierarchies.ClassOf(world, world.globals[name]))
    {
      if name !in globals {
        return null, null;
      }
      c := globals[name];
      assert HasMetaclass(world, world.globals[name]);
      metaclass := ClassOf(c, world.globals[name]);
    }

    /** Makes a class with its metaclass, where the superclass is known. */
    method MakeClass(name: Oop, format: Oop, metaFormat: Oop,
                     superclass: Behavior, superMetaclass: Behavior?, ghost s: nat) returns (c: Behavior)
      requires Mirrors() && classTableSize == world.registered && |world.table| == TABLE_PAGE
      requires FIRST_CLASS_INDEX + classTableSize + 2 <= TABLE_PAGE && s < |world.nodes| == |behaviors|
      requires Refers(behaviors, superclass, Some(s))
      requires Refers(behaviors, superMetaclass, Hierarchies.ClassOf(world, s))
      modifies this, classTable
      ensures Mirrors() && old(behaviors) <= behaviors && |behaviors| == |old(behaviors)| + 2
      ensures c == behaviors[|old(behaviors)| + 1] && globals == old(globals)[name := c]
      ensures fresh(c) && c.name == name && c.format == format && c.superclass == superclass
      ensures classTableSize == old(classTableSize) + 2 && classTable.Length == TABLE_PAGE && c.classIndex < TABLE_PAGE
      ensures var metaclass := classTable[c.classIndex];
              && metaclass != null && fresh(metaclass) && metaclass.thisClass == c
              && metaclass.format == metaFormat && metaclass.superclass == superMetaclass
      ensures world == NewClass(old(world), s, name)
    {
      hide Mirrors, Refers;
      ghost var m, bs := |behaviors|, behaviors;
      var metaclass := MakeBehavior(METACLASS, superMetaclass, Hierarchies.ClassOf(world, s));
      SetFormat(metaclass, metaFormat);
      RefersToMore(bs, behaviors, superclass, Some(s));
      c := MakeBehavior(metaclass.identityHash, superclass, Some(s));
      SetFormat(c, format);
      SetName(c, name);
      SetThisClass(metaclass, c);
      SetGlobal(name, c, m + 1);
    }

    /** Makes a class and its metaclass, unless the class is there; nil when there is no superclass of that name. */
    method SubclassWithSomeNames(superName: Oop, name: Oop, format: Oop, metaFormat: Oop) returns (c: Behavior?)
      requires Valid() && FIRST_CLASS_INDEX + classTableSize + 2 <= TABLE_PAGE
      modifies this, classTable
      ensures Valid() && old(behaviors) <= behaviors
      ensures world == Subclass(old(world), superName, name).0
      ensures Refers(behaviors, c, Subclass(old(world), superName, name).1)
      ensures c == null || name in old(globals) ==>
                && world == old(world) && behaviors == old(behaviors) && globals == old(globals)
                && classTable[..] == old(classTable[..]) && classTableSize == old(classTableSize)
      ensures name in old(globals) ==> c == old(globals)[name]
      ensures name !in old(globals) ==> (c == null <==> superName !in old(globals))
      ensures name !in old(globals) && superName in old(globals) ==>
                && globals == old(globals)[name := c] && classTableSize == old(classTableSize) + 2
                && fresh(c) && c.name == name && c.format == format && c.superclass == old(globals)[superName]
                && c.classIndex < classTable.Length && old(globals[superName].classIndex) < classTable.Length
                && var metaclass := classTable[c.classIndex];
                && metaclass != null && fresh(metaclass) && metaclass.thisClass == c && metaclass.format == metaFormat
                && metaclass.superclass == old(classTable[globals[superName].classIndex])
    {
      SubclassKeepsSound(world, superName, name);
      assert |world.table| == TABLE_PAGE && classTableSize == world.registered;
      hide Sound, Mirrors, NewClass, Hierarchies.Lookup;
      var existing, _ := FindClass(name);
      if existing != null {
        return existing;
      }
      var superclass, superMetaclass := FindClass(superName);
      if superclass == null {
        return null;
      }
      c := MakeClass(name, format, metaFormat, superclass, superMetaclass, world.globals[superName]);
    }

    /** Puts a method into a dictionary of methods. */
    method PutMethod(d: MethodDictionary, selector: Oop, compiled: Oop, ghost methods: map<Selector, Oop>)
      requires Understands(d, Some(methods), identityHash) && selector != NIL
      modifies d, d.keys, d.values
      ensures Understands(d, Some(methods[KeyOf(identityHash, selector) := compiled]), identityHash)
      ensures (d.keys == old(d.keys) && d.values == old(d.values)) || (fresh(d.keys) && fresh(d.values))
    {
      d.AtPut(selector, compiled);
    }

    method DefineMethod(b: Behavior, ghost i: nat, selector: Oop, compiled: Oop)
      requires Mirrors() && i < |behaviors| && b == behaviors[i] && b.methodDict != null && selector != NIL
      requires world.nodes[i].methods.Some?
      modifies this`world, b.methodDict, b.methodDict.keys, b.methodDict.values
      ensures Mirrors() && behaviors == old(behaviors)
      ensures world == old(world).(nodes := WithMethod(old(world).nodes, i, KeyOf(identityHash, selector), compiled))
    {
      hide Understands, Linked, Listed, Refers, Matching;
      ghost var nodes := WithMethod(world.nodes, i, KeyOf(identityHash, selector), compiled);
      SameLinks(behaviors, world.nodes, nodes);
      MatchingAt(behaviors, world.nodes, identityHash, i);
      PutMethod(b.methodDict, selector, compiled, world.nodes[i].methods.value);
      world := world.(nodes := nodes);
      StaysSeparate(i);
      StaysMatching(i);
    }

    /** Registers a method of a global class, on the side of its instances or of the class itself. */
    method RegisterMethodWithNames(compiled: Oop, selector: Oop, className: Oop, classSide: bool) returns (done: bool)
      requires Valid() && selector != NIL
      requires Allowed(world, Define(className, classSide, KeyOf(identityHash, selector), compiled))
      modifies this`world, set b | b in behaviors :: b.methodDict, Arrays(behaviors)
      ensures Valid() && behaviors == old(behaviors) && (done <==> className in old(globals))
      ensures world == Apply(old(world), Define(className, classSide, KeyOf(identityHash, selector), compiled))
      ensures !done ==> world == old(world)
      ensures done ==>
                var w, k, t := old(world), KeyOf(identityHash, selector), old(world).globals[className];
                && |world.nodes| == |w.nodes| && t < |w.nodes| && w.nodes[t].classIndex < |w.table|
                && world == w.(nodes := world.nodes)
                && var b := if classSide then w.table[w.nodes[t].classIndex] else Some(t);
                && b.Some? && b.value < |w.nodes| && w.nodes[b.value].methods.Some?
                && Hierarchies.Lookup(world.nodes, b, k) == compiled
                && (forall j :: 0 <= j < |w.nodes| && j != b.value ==> world.nodes[j] == w.nodes[j])
                && world.nodes[b.value]
                == w.nodes[b.value].(methods := Some(w.nodes[b.value].methods.value[k := compiled]))
    {
      hide Understands, Different, Separate, Linked, WithMethod, Side;
      SideIsThere(world, className, classSide);
      var clazz, metaclass := FindClass(className);
      if clazz == null {
        return false;
      }
      ghost var k, side := KeyOf(identityHash, selector), Side(world, className, classSide).value;
      SideIs(world, className, classSide);
      var b := if classSide then metaclass else clazz;
      DefiningKeepsSound(world, side, k, compiled);
      DefinedIsFound(world, className, classSide, k, compiled);
      MatchingAt(behaviors, world.nodes, identityHash, side);
      HasMethods(b.methodDict, world.nodes[side].methods);
      DefineMethod(b, side, selector, compiled);
      return true;
    }

    lemma HasMethods(d: MethodDictionary?, methods: Option<map<Selector, Oop>>)
      requires Understands(d, methods, identityHash)
      ensures d == null <==> methods.None?
    {
    }
  }
}
