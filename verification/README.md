# A model of the Smalltalk runtime's stateful cores

The runtime keeps its guarantees in C and assembly that work by updating memory in place. This project models
five of its parts and proves what holds after every step, and over whole runs:

* **Open addressing** (`Probing`, `Dictionaries`, `MethodDictionaries`, `WeakSets`). `Probing` is the theory of a
  cyclic probe path: every stored key is reachable from its home slot over occupied slots. On it the classes
  `Dictionary` (with identity as one of its equalities), `MethodDictionary` and `WeakSet` refine a finite map or
  set, through growth. Methods that add and grow call each other, and the proof that this ends is the load bound:
  growing leaves so much room that adding again cannot grow.
* **Strings and symbols** (`StringHash`, `Symbols`). The hash computed with split 32-bit products is a polynomial
  modulo 2^28; interning is canonical over every run.
* **The segmented stack** (`LinkedLists`, `StackHeaps`, `SegmentMachines`, `SegmentSimulation`, `SegmentRuns`,
  `SegmentThreads`, `ExecutionStacks`). `SegmentMachines` writes the segment switch as functions on a machine of words and registers,
  `ExecutionStacks` is the code that updates memory and the two lists in place, proved equal to those functions
  step by step. The simulation shows that a segmented stack behaves as one contiguous stack for every run, from the
  time C code enters compiled code on a new thread until it gets its own stack back.
* **Objects** (`ObjectSizes`, `SpurHeaps`, `FixUps`, `StaticHeaps`). How sizes are encoded, that the walker finds
  exactly the allocated objects, and that the four passes of the static-heap fix-up rewrite the object graph so
  that all references go to canonical symbols and global variables. `FixUps` is the rewriting on values,
  `StaticHeaps` the walk over an array of words that performs it in place.
* **Classes** (`Hierarchies`, `Kernel`). Method lookup, class creation and method registration over behaviors that
  hold real `MethodDictionary` objects.

Two remarks on the tables. Hash and equality are arbitrary functions that obey the laws a table needs
(`LawfulHashing`, `LawfulComparing`). A `Key` is all that such functions can tell about an object, so equal keys
of the specification are equal objects of the runtime (`KeysDecideEquality`).

Where the code does not do what its comments or its names say, the model follows the code:

* String equality tests the second text where it means the first, so it is not symmetric (`EqualsIsNotSymmetric`);
  it is equality of contents exactly in the cases of `EqualsExactly`, which cover how interning uses it.
* The segment to run on is answered as the address of its list node when a segment is live already, where callers
  expect the address of its header (`ValidSegmentIsHeader`).
* Replacing an equal element of a weak set counts it again; the tally is only an upper bound until a rehash.
* Sizes of 32-bit and 16-bit elements do not round-trip; `SizeRoundTrip` says exactly when they do.
* The comment "clear the forwarding pointer" describes a statement that only clears two tag bits. It keeps the
  forwarding of earlier passes, and it clears the mark of a big object, so that a later walk cannot read the
  object any more (`UntaggingKeepsRecord`).
* A page of the class table has room for 1024 classes but is chosen by 4096 indices (`TableAliases`,
  `TableIsFaithful`).
* The walker of objects ends at the size of the heap rounded up to 16, so its last assertion holds exactly for
  sizes that are multiples of 16 (`SpurHeap.Walk`).

## Model

| member | source | states |
|---|---|---|
| Probing.ScanDecides | src/classes/collections.c:331-355 | a scan of a table with unbroken probe paths finds a key exactly when some slot holds it |
| Probing.ScanDeterministic | src/classes/collections.c:331-355 | a scan has one answer for a key in a table |
| Probing.ScanSucceeds | src/classes/collections.c:331-355 | a scan never fails on a table with an empty slot |
| Probing.MissNext | src/classes/collections.c:340-354 | going on to the next slot, cyclically, misses one slot more or ends the scan |
| Probing.StoreKeepsWellFormed | src/classes/collections.c:399-426 | storing a key where its scan ended keeps keys distinct and every key reachable, and adds that key only |
| Probing.GrowthNeverNests | src/classes/collections.c:309-313 | re-inserting the entries of any old capacity, 0 to 3 included, into the grown one never meets the load condition |
| Probing.ScanReadsImage | src/classes/collections.c:385-397 | the slot a scan ends at reads the map the table stands for |
| Probing.Store | src/classes/collections.c:399-426 | storing an entry where the scan ended updates the map at that key and counts one more exactly for a new key |
| Probing.UsedIsImageSize | src/classes/collections.c:399-426 | the number of occupied slots is the size of the map |
| Dictionaries.KeysDecideEquality | src/classes/collections.c:331-355 | two keys are one key of the map exactly when the equality function says so |
| Dictionaries.Dictionary.constructor | src/classes/collections.c:323-329 | a new dictionary of any capacity is empty |
| Dictionaries.Dictionary.ScanFor | src/classes/collections.c:331-355 | answers the first slot of the probe path that is empty or holds the key, or -1; ends after at most one round |
| Dictionaries.Dictionary.Grow | src/classes/collections.c:357-383 | the capacity becomes 4 or twice what it was, and map and tally are those before |
| Dictionaries.Dictionary.Reinsert | src/classes/collections.c:376-382 | re-inserting the old associations into the new array rebuilds map and tally without growing again |
| Dictionaries.Dictionary.AddAssociation | src/classes/collections.c:399-426 | the map is updated at the key, the tally counts new keys; the capacity grows exactly when less than a quarter would be free, and a quarter is free afterwards |
| Dictionaries.Dictionary.Occupy | src/classes/collections.c:417-425 | filling an empty slot and growing when full adds one key |
| Dictionaries.Dictionary.AddAssociationIfNotExistent | src/classes/collections.c:528-557 | a bound key keeps its association, which is answered; otherwise the given one is added, within the same load bound |
| Dictionaries.Dictionary.AssociationAt | src/classes/collections.c:385-397 | answers the association the map has for the key, which has an equal key |
| Dictionaries.Dictionary.AtPut | src/classes/collections.c:558-591 | afterwards the key leads to the value, no other binding and no value of another association changed, and the load bound holds |
| Dictionaries.Dictionary.AtOrNil | src/classes/collections.c:593-609 | answers the value the map leads to, or nil when the key is not bound |
| Dictionaries.Dictionary.BindingsAreHeld | src/classes/collections.c:331-355 | a key is only bound to an association in the table whose own key it is |
| MethodDictionaries.MethodDictionary.constructor | src/classes/collections.c:634-639 | a new method dictionary of any capacity, 0 included, is empty with arrays in step |
| MethodDictionaries.MethodDictionary.ScanFor | src/classes/collections.c:641-665 | answers the first slot of the probe path that is empty or holds the key, or -1 |
| MethodDictionaries.MethodDictionary.Grow | src/classes/collections.c:667-696 | both arrays are replaced by grown ones in step, with the same map and tally |
| MethodDictionaries.MethodDictionary.Reinsert | src/classes/collections.c:689-695 | putting the old entries into the new arrays rebuilds the old map without growing again |
| MethodDictionaries.MethodDictionary.AtPut | src/classes/collections.c:698-725 | the map is updated at the key from any capacity; capacity 0 grows and retries; arrays stay in step and a quarter of them free |
| MethodDictionaries.MethodDictionary.AtOrNil | src/classes/collections.c:727-737 | answers the value of the map, or nil |
| MethodDictionaries.StoreMethod | src/classes/collections.c:710-723 | writing key and value to the slot of the scan updates the map of the parallel arrays |
| WeakSets.KeysDecideEquality | src/classes/collections.c:761-787 | a query and an element are one key exactly when the equality function says so |
| WeakSets.WeakSet.constructor | src/classes/collections.c:752-759 | a new set holds nothing but its flag |
| WeakSets.WeakSet.ScanFor | src/classes/collections.c:761-787 | answers the first slot of the probe path that holds the flag or an equal element, or -1 |
| WeakSets.WeakSet.Find | src/classes/collections.c:789-800 | answers the stored equal element, if there is one |
| WeakSets.WeakSet.DoAdd | src/classes/collections.c:802-813 | the element is in the set under its key, replacing an equal one, and the tally grows even then |
| WeakSets.WeakSet.DoGrow | src/classes/collections.c:815-836 | a rehash to any sufficient size keeps all elements by identity and makes the tally exact |
| WeakSets.WeakSet.Reinsert | src/classes/collections.c:829-835 | re-inserting the elements rebuilds the set with an exact tally |
| WeakSets.WeakSet.Grow | src/classes/collections.c:838-856 | keeps the elements; the capacity stays when a rehash leaves a quarter free and doubles otherwise |
| WeakSets.WeakSet.Add | src/classes/collections.c:858-864 | adds or replaces the element; from any positive capacity a quarter of the set, and at least one slot, is free afterwards |
| StringHash.SplitProductIsProduct | src/classes/collections.c:157-171 | the product in two halves of 14 bits equals the plain product modulo 2^28 |
| StringHash.SplitStepIsStep | src/classes/collections.c:185-200 | a step equals (h + c) * 1664525 modulo 2^28 for all 32-bit words, even where h + c wraps |
| StringHash.ByteArrayDataStringHash | src/classes/collections.c:157-171 | the loop over bytes computes the plain hash |
| StringHash.WideStringHash | src/classes/collections.c:185-200 | the loop over code points computes the same hash function |
| StringHash.HashConcatenates | src/classes/collections.c:157-171 | hashing on from a hash is hashing the concatenation |
| StringHash.HashClosedForm | src/classes/collections.c:157-171 | the hash is h0 * M^n plus the sum of c_i * M^(n-i) modulo 2^28 |
| StringHash.HashInjective | src/classes/collections.c:157-171 | over the same characters hashes are equal exactly when the initial ones are modulo 2^28 |
| StringHash.OneCharacter | src/classes/collections.c:185-200 | changing one character keeps the hash exactly when the characters agree modulo 2^28 |
| StringHash.OneByte | src/classes/collections.c:157-171 | changing exactly one byte of a string of any length changes its hash |
| Symbols.ByteStringEquals | src/classes/collections.c:107-122 | the loop decides equality of contents |
| Symbols.EqualsExactly | src/classes/collections.c:77-105 | equality of byte texts is identity or equality of contents, except from a symbol to a string |
| Symbols.EqualsIsNotSymmetric | src/classes/collections.c:92-99 | a string equals a symbol of the same bytes but not the other way round |
| Symbols.WideCharacterEquals | src/classes/collections.c:92-97 | a wide text of one character equals a byte symbol exactly when its low byte does |
| Symbols.WideTextsAreConfused | src/classes/collections.c:92-97 | a wide text may equal a symbol of other characters and hash, and not equal the one of the same characters |
| Symbols.SymbolComparing | src/classes/collections.c:250-298 | with symbols stored and byte texts queried the equality and the hash obey the laws of a set |
| Symbols.NamesAreBytes | src/classes/collections.c:250-298 | two texts are one key of the symbol sets exactly when their bytes are equal |
| Symbols.SymbolTable.constructor | src/classes/collections.c:752-759 | both sets of symbols start empty |
| Symbols.SymbolTable.FindSymbol | src/classes/collections.c:250-298 | answers what the symbol table has for the bytes, else what the set of new symbols has, else none |
| Symbols.SymbolTable.InternString | src/classes/collections.c:250-298 | answers a symbol with the bytes of the text, now and later the one of these bytes; no other symbol changes |
| Symbols.SymbolTable.InternCString | src/classes/collections.c:300-304 | the same for a C string |
| Symbols.SymbolStays | src/classes/collections.c:250-304 | a symbol once answered is the one of its bytes after any further run |
| Symbols.InterningIsCanonical | src/classes/collections.c:250-304 | over every run the same symbol is answered exactly for the same bytes |
| Symbols.InterningIsIdempotent | src/classes/collections.c:250-304 | interning an answered symbol again answers it, whatever was interned since |
| LinkedLists.LinkedList.AddNode | src/datastructures.c:5-22 | the list is the old one with the node at its end; next and previous stay inverse |
| LinkedLists.LinkedList.RemoveNode | src/datastructures.c:24-41 | the list is the old one without the node, first, middle, last or only; only neighbours are touched |
| StackHeaps.StackHeap.AllocationFits | src/memory.c:135-142 | the aligned offset is the least one, and rounding to pages stays within the capacity |
| StackHeaps.StackHeap.Allocate | src/memory.c:126-154 | the block is aligned, apart from all earlier blocks; commits tile the committed pages and cover the size |
| SegmentSimulation.LaidDirectCall | src/native/x86/send.c:102-144 | a call that fits keeps the layout and pushes an activation in the same segment |
| SegmentSimulation.SplitCallAtTheTrap | src/native/x86_64/trampolines.nasm:88-112 | a split call is the trap's work on the machine whose registers the trap has saved |
| SegmentSimulation.LaidSplit | src/native/x86/send.c:125-139 | after a split the new segment holds the callee's activation and its arguments, over an intact sender |
| SegmentSimulation.LaidSplitCall | src/native/x86/send.c:102-144 | a call that overflows keeps the layout: the callee has its arguments, frame and trap in a fresh segment |
| SegmentSimulation.LaidDirectReturn | src/native/x86_64/trampolines.nasm:153-162 | a return within a segment restores the layout of the sender |
| SegmentRuns.NextSegmentIsFresh | src/memory.c:31-55 | the segment taken next is not one of the thread's and lies within memory |
| SegmentRuns.ConservedPop | src/memory.c:94-101 | popping the last segment, the first one included, loses no segment and forgets the thread with its last |
| SegmentRuns.SoundSplitCall | src/native/x86/send.c:121-139 | a split loses no segment and appends the new one to the thread |
| SegmentRuns.SoundSplitReturn | src/native/x86/send.c:146-164 | the pop trap moves the last segment of the thread to the free list and loses none |
| SegmentRuns.LaidSplitReturn | src/native/x86_64/trampolines.nasm:116-136 | the pop trap resumes the sender in the previous segment with its registers, its layout and the result |
| SegmentRuns.CallKeeps | src/native/x86/send.c:102-144 | any call, direct or split, keeps layout, conservation and last-in-first-out order |
| SegmentRuns.ReturnKeeps | src/native/x86/send.c:146-164 | any return does, and resumes the sender's return pointer, stack pointer and frame pointer with the value returned |
| SegmentRuns.StepKeeps | src/native/x86/send.c:102-164 | every step keeps the layout of all activations and every segment in exactly one list |
| SegmentRuns.RunKeeps | src/native/x86/send.c:102-164 | so does every run |
| SegmentMachines.DescriptorCounts | src/native/x86/send.c:113-116 | the low half of a descriptor counts object arguments, the high half bytes of native ones, next to the receiver |
| SegmentMachines.HeaderLayout | src/native/x86_64/trampolines.nasm:176-183 | the fields of the header are at the byte offsets from the end of the segment that the trampolines use |
| SegmentRuns.CallTakesItsArguments | src/native/x86/send.c:113-129 | a call with so many object arguments and native bytes is allowed when they are pushed, and its callee has the receiver and all of them in its frame, at the very top of the new segment after a split |
| SegmentRuns.ReturnPopsArguments | src/native/x86/send.c:135-139 | its matching return puts the stack pointer just past the receiver and all those arguments |
| SegmentRuns.StepSimulates | src/native/x86/send.c:102-164 | each step of the segmented machine is one of the contiguous machine |
| SegmentRuns.SegmentsSimulateOneStack | src/native/x86/send.c:102-164 | every run, splits nested to any depth, stays in step with one unbounded contiguous stack |
| SegmentRuns.SameView | src/native/x86/send.c:102-164 | machines in step show compiled code the same program counter, locals, arguments and result |
| SegmentRuns.BalancedRunKeepsActivation | src/native/x86/send.c:102-164 | a balanced run between call and return leaves the caller's activation as it was |
| SegmentRuns.ReturnResumesSender | src/native/x86/send.c:102-164 | after any balanced callee the return resumes the sender with the value at its own return and frame pointer, just past the arguments, in its segment |
| SegmentRuns.MaskFindsRunningSegment | src/native/x86_64/trampolines.nasm:90-93 | masking the stack pointer with -4096 and adding 4096 gives the end of the running segment, the last one |
| SegmentRuns.ThreadDataReachable | src/native/x86_64/trampolines.nasm:95-104 | the header of every running segment leads to the thread data in the first segment, whose words are those of the thread |
| SegmentRuns.RunKeepsThreadData | src/native/x86_64/trampolines.nasm:88-136 | no run of calls, stores, splits and returns gives a thread other data |
| SegmentRuns.ThreadDataSurvives | src/native/x86_64/trampolines.nasm:95-104 | after every run the traps find all words of the thread data, the C stack pointers among them, as they were |
| SegmentThreads.ValidSegmentIsHeader | src/memory.c:26-62 | the address answered for the segment to run on is its header exactly when no segment was live; else it is the list node in the header, and the stack pointer is sought beyond the segment |
| SegmentThreads.OneLiveSegmentIsMissed | src/memory.c:26-62 | an input with one live segment where the answer is 6 words above the header |
| SegmentThreads.StartedThread | src/memory.c:57-81 | a first segment has cleared thread data below its header and known from it, and no segment is lost |
| SegmentThreads.EnteredThreadSimulates | src/native/x86_64/trampolines.nasm:186-209 | compiled code entered on a new thread is in step with the contiguous machine on an empty stack |
| SegmentThreads.EndedThread | src/native/x86_64/trampolines.nasm:222-240 | returning to C takes the registers from the thread data; popping the first segment loses none |
| SegmentThreads.ThreadStepKeeps | src/native/x86/send.c:233-254 | starting a thread, every step of it and ending it keep all invariants |
| SegmentThreads.ThreadRunKeeps | src/native/x86/send.c:233-254 | so does every run over any number of threads |
| SegmentThreads.SegmentsAreConserved | src/memory.c:31-101 | over any number of threads each page carved is in exactly one list, once, and all are free between threads |
| SegmentThreads.ThreadReturnsToC | src/native/x86/send.c:233-254 | C code that entered compiled code gets its stack pointers, return address and the result, whatever ran and was split |
| ExecutionStacks.ExecutionStack.TakeSegment | src/memory.c:36-47 | takes the first free segment, or carves the next page when none is free |
| ExecutionStacks.ExecutionStack.CarveSegment | src/memory.c:42-47 | carving takes exactly the next whole page of the pool |
| ExecutionStacks.ExecutionStack.AllocateSegment | src/memory.c:31-55 | equals the machine step: header cleared, stack pointer at the header |
| ExecutionStacks.ExecutionStack.CreateNewSegment | src/memory.c:83-92 | equals the machine step, and the segment is last in the thread's list |
| ExecutionStacks.ExecutionStack.PopSegment | src/memory.c:94-101 | equals the machine step, from the thread's list to the free list, and keeps every segment in exactly one list |
| ExecutionStacks.ExecutionStack.GetValidSegment | src/memory.c:57-81 | answers the header of a new first segment, or the uncorrected list node of the running one, and starts a thread only when there is none |
| ExecutionStacks.ExecutionStack.FirstSegment | src/memory.c:64-80 | equals the machine step that starts a thread, and answers the header |
| ExecutionStacks.ExecutionStack.PlaceThreadData | src/memory.c:66-72 | the thread data is cleared, right below the first header, and known from it |
| ExecutionStacks.ExecutionStack.SaveRegisters | src/native/x86_64/trampolines.nasm:98-100 | equals the machine step |
| ExecutionStacks.ExecutionStack.ReturnToSender | src/native/x86_64/trampolines.nasm:153-162 | equals the machine step: frame pointer and return address are popped, the value is the result |
| ExecutionStacks.ExecutionStack.MoveArguments | src/native/x86/send.c:122-133 | arguments and return pointers are copied, the trap is planted, the sender's return pointer is answered |
| ExecutionStacks.ExecutionStack.LeaveSender | src/native/x86/send.c:135-139 | the sender is left with its frame pointer and return pointer on top |
| ExecutionStacks.ExecutionStack.NewStackSegment | src/native/x86/send.c:102-144 | the whole split in place equals the machine step and loses no segment |
| ExecutionStacks.ExecutionStack.PopStackSegment | src/native/x86/send.c:146-164 | the pop in place equals the machine step, through the link to the previous segment, with the return value |
| ExecutionStacks.ExecutionStack.StackLimitTrap | src/native/x86_64/trampolines.nasm:88-112 | the limit trap in place equals the machine step |
| ExecutionStacks.ExecutionStack.PopSegmentTrap | src/native/x86_64/trampolines.nasm:116-136 | the pop trap in place equals the machine step and hands on the result |
| ExecutionStacks.ExecutionStack.SwitchToSmalltalk | src/native/x86_64/trampolines.nasm:186-209 | equals the machine step: C pointers into the thread data, stack and frame pointer from the header |
| ExecutionStacks.ExecutionStack.ReturnToC | src/native/x86_64/trampolines.nasm:222-240 | equals the machine step: registers into the header, C pointers from the thread data |
| ObjectSizes.SizeOfInstance | src/spur/objectmodel.c:308-325 | slots read back are the slots written on both sides of the 255-slot threshold |
| ObjectSizes.SizeRoundTrip | src/spur/objectmodel.c:343-417 | the size read back is the one asked for exactly under SizeIsKept: always, but for the 32- and 16-bit formats |
| ObjectSizes.FormatStaysInFamily | src/spur/objectmodel.c:394-401 | the padding encoded in the format stays in its family and in 5 bits |
| ObjectSizes.MixedRoundTrip | src/spur/objectmodel.c:419-461 | a mixed object tells its size, and its native bytes lie after all pointers and fit |
| SpurHeaps.HeaderFields | src/spur/objectmodel.c:200-204 | class index, format, identity hash and slot count are read back from the header word |
| SpurHeaps.SpurHeap.AllocateWords | src/spur/objectmodel.c:182-187 | an object starts at the next multiple of 16 after all others |
| SpurHeaps.SpurHeap.InstantiateObject | src/spur/objectmodel.c:168-206 | writes preheader and header, small or big, behind all other objects |
| SpurHeaps.SpurHeap.InstantiateMixedObject | src/spur/objectmodel.c:208-233 | writes the big preheader with both counts |
| SpurHeaps.SpurHeap.BasicNew | src/spur/objectmodel.c:343-417 | for every class format the heap parses as before plus the new object, which has its class, its identity hash from its address, its size fields, and nil or zero slots |
| SpurHeaps.SpurHeap.BasicNewMixed | src/spur/objectmodel.c:419-461 | the same for mixed objects: class, identity hash and size, nil pointers, then zero bytes |
| SpurHeaps.SpurHeap.StoreSlot | src/spur/objectmodel.c:454-458 | storing into slots never changes what the walker finds |
| SpurHeaps.ReadRecord | src/spur/objectmodel.c:37-58 | a step of the walker reads oop, pointer slots and total slots as they were allocated |
| SpurHeaps.SpurHeap.Walk | src/spur/objectmodel.c:22-73 | visits exactly the allocated objects in order and stops at the size rounded up to 16, at the size itself exactly when it is even in words |
| SpurHeaps.SlotsAreFree | src/spur/objectmodel.c:22-73 | no slot of an object is a header or preheader word of any object |
| SpurHeaps.ParsedAppend | src/spur/objectmodel.c:168-233 | a record behind the last one extends what the walker finds by it |
| FixUps.ApplyPass | src/spur/objectmodel.c:524-558 | applying forwarding maps each pointer slot and changes nothing else, though later objects see earlier results |
| FixUps.ForwardPass | src/spur/objectmodel.c:474-505 | a forwarding pass adds each new name with an object of that name, and forwards all objects of a name to it |
| FixUps.PhaseRewrites | src/spur/objectmodel.c:560-569 | forwarding and applying redirect every pointer slot to the canonical object, none of which is forwarded itself |
| FixUps.FixUpIsRewriting | src/spur/objectmodel.c:560-569 | in objects of a format below 9 or from 24 on every slot to an in-heap symbol holds its interned symbol and every slot to a global variable the association of its interned key; all else stays; exactly the names that were not known are added, each with an object of that name |
| FixUps.AppliedByFormat | src/spur/objectmodel.c:534-556 | applying forwarding changes no slot of an object of format 9 to 23, and forwards each slot of any other |
| FixUps.NewObjectsAreRewritten | src/spur/objectmodel.c:403-414 | new objects are rewritten exactly when they were made with slots of nil, apart from given sizes of 32-bit elements |
| FixUps.FixUpRegisters | src/spur/objectmodel.c:474-505 | in the end every symbol and global of the heap has its name in the table, bound as before or to an object of that name |
| FixUps.SymbolsAreUnified | src/spur/objectmodel.c:474-488 | after the fix-up two references to symbols are the same exactly when the bytes are |
| FixUps.GlobalsAreUnified | src/spur/objectmodel.c:490-505 | two references to globals are the same exactly when their keys are after interning |
| FixUps.TextIsStored | src/classes/collections.c:107-122 | the name of a symbol is the bytes stored in its words, low byte first, without the padding of its format |
| FixUps.SymbolsOfBytesAreUnified | src/spur/objectmodel.c:474-488 | references to byte symbols end up the same exactly when the stored bytes are the same |
| FixUps.GlobalsOfBytesAreUnified | src/spur/objectmodel.c:490-505 | references to globals end up the same exactly when the symbols of their keys store the same bytes |
| FixUps.SettledFixUp | src/spur/objectmodel.c:560-569 | afterwards nothing is left to forward, to add or to apply, but for the global variables whose keys do not settle |
| FixUps.SecondRunChangesNothing | src/spur/objectmodel.c:560-569 | with keys that are no global variables of the heap a second run changes no slot, no forwarding word and no table |
| FixUps.SecondRunExactly | src/spur/objectmodel.c:560-569 | in general it changes nothing exactly when looking each global up by the key it then has finds it, or what it is forwarded to |
| Bits.ClearTags | src/spur/objectmodel.c:478 | the mask ~3 leaves a word without tag bits, and nothing else changes in a 64-bit word |
| Bits.AndOrBits | src/spur/objectmodel.c:478-487 | the mask and the addition of a forwarding target work bit by bit |
| StaticHeaps.UntaggingKeepsRecord | src/spur/objectmodel.c:478 | clearing the tag bits keeps an object readable for the walker exactly when it is small |
| StaticHeaps.StaticHeap.VisitForward | src/spur/objectmodel.c:474-505 | one object's forwarding word and table entry become as the rewriting says, in place |
| StaticHeaps.StaticHeap.Forwarding | src/spur/objectmodel.c:542-556 | tag and range tests and the forwarding word give the forwarded value |
| StaticHeaps.StaticHeap.VisitApply | src/spur/objectmodel.c:524-558 | one object's slots become as the rewriting says, in place, even where it points to itself; formats 9 to 23 are left alone |
| StaticHeaps.StaticHeap.Iterate | src/spur/objectmodel.c:22-73 | the walker performs a pass on each object once, in order, while the pass writes the heap |
| StaticHeaps.StaticHeap.FixStaticHeap | src/spur/objectmodel.c:560-569 | the four passes in place equal the rewriting and keep all record boundaries, on a new heap or one that was fixed up |
| StaticHeaps.FixUpStaysClosed | src/spur/objectmodel.c:524-558 | at every pass a pointer into the heap points to an object, so the forwarding word read is one |
| StaticHeaps.OopsAreDistinct | src/spur/objectmodel.c:22-73 | the objects the walker finds have different oops, as the rewriting needs |
| StaticHeaps.StaticHeap.ObjectsArePlaced | src/spur/objectmodel.c:22-73 | the objects of a valid heap are at different places, and all oops are pointers |
| StaticHeaps.SetForwarding | src/spur/objectmodel.c:487 | writing a forwarding word changes that item only and keeps the walk |
| StaticHeaps.SetSlot | src/spur/objectmodel.c:556 | writing a slot changes that slot of that item only and keeps the walk |
| Hierarchies.BinderIsNearest | src/classes/kernel.c:52-88 | lookup answers the binding of the first class of the chain that has one, and nil exactly when no class has one |
| Hierarchies.RegisteringChangesLookup | src/classes/kernel.c:268-305 | registering changes only that selector, and only where the nearest binder is now the updated class |
| Hierarchies.NewNodesKeepLookup | src/classes/kernel.c:190-266 | making classes changes no lookup of existing ones |
| Hierarchies.TableAliases | src/spur/objectmodel.c:146-160 | two class indices share an entry exactly when they share a 4096-page and differ by a multiple of 1024 |
| Hierarchies.TableIsFaithful | src/spur/objectmodel.c:146-160 | no two indices below a limit share an entry exactly when the limit is at most 1024 |
| Hierarchies.SubclassKeepsSound | src/classes/kernel.c:190-266 | a bound name is answered and changes nothing; making a class keeps all invariants and lookups, and class and metaclass inherit from superclass and its metaclass |
| Hierarchies.DefiningKeepsSound | src/classes/kernel.c:268-305 | registering a method keeps all invariants |
| Hierarchies.DefinedIsFound | src/classes/kernel.c:268-305 | afterwards the method is what the class answers, or on the class side the behavior in the table at its class index; all other behaviors are as before |
| Hierarchies.RunKeepsSound | src/classes/kernel.c:190-305 | every run keeps the superclass graph without cycles and metaclasses parallel to classes |
| Hierarchies.MetaclassesAreParallel | src/classes/kernel.c:190-266 | metaclasses of all superclasses are superclasses of the metaclass |
| Hierarchies.MetaclassesInheritFromClass | src/classes/kernel.c:21 | every metaclass inherits from Class, through the metaclass of ProtoObject |
| Hierarchies.KernelIsSound | src/classes/kernel.c:21-26 | the kernel hierarchy is without cycles and parallel, and Class is the superclass of the metaclass of its root |
| Hierarchies.KernelHierarchy | src/classes/kernel.c:21-26 | superclass, class index and identity hash of each kernel class and metaclass, and their table entries |
| Hierarchies.InitializingKeepsSound | src/classes/kernel.c:140-145 | initializing a kernel class keeps all invariants |
| Hierarchies.ClassSideIsInherited | src/classes/kernel.c:52-88 | a class-side method of any superclass is found from the metaclass of a class |
| Kernel.ObjectModel.constructor | src/classes/kernel.c:21-26 | the image as declared, ProtoObject to Metaclass with their metaclasses, meets the invariants |
| Kernel.ObjectModel.DeclareKernel | src/spur/objectmodel.c:120-140 | the class table holds the kernel classes by index and their metaclasses 256 further |
| Kernel.ObjectModel.InitializeClass | src/classes/kernel.c:140-145 | a kernel class gets an empty method dictionary and a name, and the name leads to it; all invariants hold |
| Kernel.ObjectModel.Lookup | src/classes/kernel.c:52-88 | the loop over method dictionaries computes the lookup of the chain |
| Kernel.ObjectModel.ClassOf | include/slvm/spur/objectmodel.h:164-165 | the class of a behavior is found by its class index |
| Kernel.ObjectModel.RegisterBehavior | src/spur/objectmodel.c:142-162 | the behavior gets index 512 and up, in order, and its table entry; nothing else changes |
| Kernel.ObjectModel.MakeClass | src/classes/kernel.c:226-258 | class and metaclass are made, registered under the next two indices and linked to superclass and its class, with formats, name, global and the link back |
| Kernel.ObjectModel.SubclassWithSomeNames | src/classes/kernel.c:190-266 | an existing class is answered and nothing changes; without superclass none; else the new class is below its superclass, its metaclass below that of the superclass, and the name leads to it |
| Kernel.ObjectModel.DefineMethod | src/classes/kernel.c:291-302 | putting a method into one behavior's dictionary changes no other behavior's methods |
| Kernel.ObjectModel.RegisterMethodWithNames | src/classes/kernel.c:268-305 | afterwards lookup of the selector from the named class, or from the class in the table at its index, answers the method; no other behavior changes; fails exactly for an unknown class |

## Left out

- System calls and I/O: `mmap` and `mprotect`, printing. A commit of pages extends a ghost list of committed ranges.
- Generated code, calling-convention conversion, method activation and primitive dispatch; of these only the
  steps of calls and returns around the segment switch are there, and an overflow is a choice of the run.
- The C stack that the trampolines switch to while a handler works; the handlers are single steps. Of it only the
  pointers in the thread data are there, not those of an outer switch that a nested one saves on it.
- SegmentThreads.ThreadStepKeeps: compiled code is entered only where no segment is live, because the address answered
  for a live one is not its header; the copying of the first arguments is pushes of that code.
- Garbage collection and weak clearing, which the runtime does not implement; no element of a set becomes nil.
- Threads: there is one thread, one free list and one list of segments.
- Memory by bytes: execution stacks and objects are arrays of 8-byte words, and native arguments of a call take a
  multiple of 8 bytes.
- Links of segments as words of memory: the list nodes are objects at the address of the links in the header, and
  the first and last node of a list are not words of the thread data.
- Tally as a tagged SmallInteger, and arrays as heap objects: fields of the tables are plain numbers and arrays.
- Identity dictionaries as a class of their own: they are `Dictionary` with identity as equality (`Identity`).
- Dictionaries.Dictionary.AddAssociation: requires a positive capacity, because the source asserts that the scan
  finds a slot and so stops on capacity 0; `AtPut`, `AtOrNil`, `AssociationAt` and the conditional add likewise.
- Symbols.EqualsExactly: covers byte strings and byte symbols; of wide texts only their comparison with a byte symbol
  is there, in `WideCharacterEquals` and `WideTextsAreConfused`.
- Symbols.SymbolTable.InternString: leaves out wide strings and wide symbols, which equal symbols of other characters
  (`WideTextsAreConfused`), so what they intern to depends on where they collide.
- Symbols.SymbolTable.FindSymbol: leaves out wide texts in the same way.
- WeakSets.WeakSet.Add: requires a positive capacity, for the same assertion.
- StackHeaps.StackHeap.Allocate: requires that the block fits, because the source never compares with the capacity.
- The class of a new association, for which the source ignores its argument.
- StaticHeaps.StaticHeap.FixStaticHeap: requires small objects, no wide symbols, pointers into the heap that point to
  objects, and before a first run forwarding words that are clear. The symbol table and the dictionary of globals are
  the maps that `SymbolTable.InternString` and `Dictionary.AddAssociationIfNotExistent` are proved to update, as one
  map whose keys tell which table they belong to.
- StaticHeaps.StaticHeap.VisitForward: requires that a symbol pass meets no wide symbol.
- StaticHeaps.StaticHeap.Iterate: the same for a whole symbol pass.
- FixUps.ForwardPass: requires a heap without wide symbols for the symbol pass.
- FixUps.PhaseRewrites: requires a heap without wide symbols for the symbol phase.
- FixUps.FixUpIsRewriting: requires a heap without wide symbols.
- FixUps.FixUpRegisters: requires a heap without wide symbols.
- FixUps.SymbolsAreUnified: requires a heap without wide symbols.
- FixUps.SettledFixUp: requires a heap without wide symbols.
- FixUps.SecondRunExactly: requires a heap without wide symbols.
- FixUps.SecondRunChangesNothing: requires a heap without wide symbols, and keys that are no global variables of the
  same heap; `SecondRunExactly` is without the second requirement.
- The fix-up of class variables, which depends on package registration.
- Class indices from 1024 on, where the table aliases; the exact condition is in `TableAliases`.
- Kernel.ObjectModel.Lookup: a dictionary that is no method dictionary, on which the source aborts, cannot occur.
- Kernel.ObjectModel.SubclassWithSomeNames: answers nil where the source aborts for want of a superclass, and leaves
  out the variables, pools and category of a class; globals hold classes only.
- Kernel class declarations beyond Metaclass, foreign-function classes, startup order, SmallInteger primitives: easy
  or declarative.
