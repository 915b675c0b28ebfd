# CoolBasic compiler: verified model

A Dafny model of the parts of the CoolBasic compiler and runtime whose correctness rests on an argument
rather than on a single function body. `dafny verify dfyconfig.toml` checks all of it. Code that changes state
step by step is modelled by classes and loops; each such method is proved equal to a function of the
old state, and the properties are proved of those functions over all inputs and all runs.

**Type instances, implemented twice** (`TypeSpec`, `TypeContract`, `InterpHeap`, `SlabGenerations`, `InterpRefines`,
`NativeHeap`, `NativeRuntime`, `NativeRefines`, `TypeSimulation`, `TypeForEach`, `SlotReuse`). The interpreter keeps
instances in a slab of generation-tagged slots with one sentinel-headed list per type; the native runtime links
leaked nodes by pointers and flags deleted ones. `TypeSpec` states the contract both promise (`runtime/cb_type.h`) as
plain lists of instances in creation order, without slots, generations or addresses, and `TypeContract` says by list
positions what each command does. Both runtimes are proved to
refine it command by command, and a run goes the same way on both at every point if and only if none of three things
happens at a command it reaches. Each has a concrete program:
- the interpreter deletes a list's sentinel, which a rewound and copied variable can hold, where the native
  runtime reports a double delete;
- `Delete x` twice through one variable: the interpreter remembers the first, the native runtime deletes
  the instance `x` was rewound to;
- a variable that kept the id of a deleted instance is used while that id resolves again, which it does
  exactly when its slot is in use and has been freed a multiple of 2^32 times since; it takes at least 2^32 deletes.

**The interpreter's machine and its stores** (`Machine`, `MachineLaws`, `StorePlace`, `StoreFields`). The explicit frame stack, with recycled
buffers and deferred return registers, is proved to compute what a recursive evaluation of calls
computes, in the same number of turns. `store_walk` is proved to be "resolve the place, then write one cell"
exactly when the walk meets no heap field and no array twice, or when only its final step repeats a field that
already holds the value. Otherwise it is not: `n.next.next = v` with `n.next == n` reports success and changes
nothing. A walk aborts exactly when the first thing it meets twice is an array, on the second borrow. `MachineLaws` and
`StoreFields` say register by register and cell by cell what single instructions and single stores leave behind.

**Arrays** (`Arrays`). The backward stride loop and the forward Horner loop compute the same row-major offset, a
bijection, and no intermediate overflows. The allocators do not accept the same requests: with no empty
axis each refuses exactly what exceeds 2^63 - 1 bytes, but its elements have another size (a scalar takes 1 to 8
bytes natively and 16 in the interpreter); with an empty axis they differ exactly if the axes before it multiply to a
number that fits `usize` but not `int64_t`.

**Text** (`Utf8`, `StrFuncs`, `Search`, `Words`). UTF-8 is defined by the byte sequences of section 4 of RFC 3629.
The byte-slicing string functions are proved to act on code points. Findings: `InStr` with an empty needle and a
start more than one past the end answers with a position before the start; joining the words that
`CountWords` counts gives back the text exactly when no two separators in it share a byte, and for all texts exactly
when the separator has no border; `Asc(Chr(c)) = c` exactly for scalar values.

**Lexer and literal decoder** (`SourceText`, `LexSpec`, `LexTheorems`, `LexGrammar`, `LexNumbers`, `NumberLiterals`,
`BrokenLiterals`, `Lexing`, `StringValue`, `EscapeSpelling`, `RawString`, `RawLines`). Every scanner is modelled. Tokens
tile the source on char boundaries, errors and diagnostics come in pairs, and the second machine that decodes string
literals stays in step with the first. Each kind of token is tied to the text it is: number literals to a grammar, a value
and the text handed to the float conversion, operators and names to their spelling, string literals to a printer that
writes every code point in every form the language has, raw literals to their lines, and errors to their spans.

**Object registry** (`Registry`, `RegistryEffects`, `RegistryRuntime`). Seven cross-referencing lists, emitters that
drain after their deletion, and one free path that scrubs only some of the lists. `Registry` has what every run keeps,
`RegistryEffects` what each command does to each list, and what that means for one object over whole runs.

**Include expansion** (`Include`). The merged program is the text with every include pasted in, repeats too, keeping
the first copy of each statement; files are read, and failures reported, in that order. **Number conversion** (`Convert`,
`NumberText`): the printed text denotes exactly the number it was made from, in its one canonical form. **Line index** (`LineIndex`): the binary search agrees with counting line ends.

Where comments and code disagree the model follows the code: `cb_type.h` names one divergence between the
backends, and there is a second one (the sentinel); the comment on `instr_impl` says -1 for "not found", and the
code returns 0; the comment on `decode_escaped` says unknown escapes are copied verbatim, and the code drops the
backslash.

Operations that Rust or C++ could only abort on are written out as outcomes (`Panicked`, `None`), so that what can
and cannot happen is proved rather than presupposed.

## Model

| member | source | states |
|---|---|---|
| TypeSpec.Linked | runtime/cb_type.h:16-33 | every list is an acyclic, doubly linked chain from its sentinel: neighbours point back at each other, stay in the list's type, and the ends are exactly the sentinel and the last node |
| TypeSpec.NewLinks | crates/cb-backend-interp/src/heap.rs:110-116 | New links the instance behind the last node of its list and changes no other link of any live node |
| TypeSpec.RemoveLinks | crates/cb-backend-interp/src/heap.rs:118-138 | Delete joins the two neighbours of the deleted instance and changes no other link |
| TypeSpec.RemoveLast | crates/cb-backend-interp/src/heap.rs:131-135 | the last node after a delete is the rewind target if the last node was deleted, and unchanged otherwise, in every list |
| TypeContract.NewIsLast | runtime/cb_type.cpp:104-121 | a new instance is the last of its list and the variable holds it; every other list and variable is as before |
| TypeContract.EndsRead | runtime/cb_type.cpp:140-150 | First and Last assign the instance behind the sentinel and the last node, Null for a list without instances |
| TypeContract.NeighboursRead | runtime/cb_type.cpp:123-175 | from position k Next assigns position k + 1 and Previous position k - 1, Null at the ends and instead of the sentinel; the check refuses the sentinel |
| TypeContract.DeleteTakesOut | runtime/cb_type.cpp:177-207 | Delete takes position k out of the list, a deleting variable then holds position k - 1, and the sentinel is refused |
| TypeContract.NothingThere | runtime/cb_type.cpp:123-207 | through Null and through deleted instances: reads of Null give Null, and every other use has its own trap |
| TypeContract.RunInOrder | runtime/cb_type.h:16-33 | a program in two parts runs the first part, and then the second if the first completes |
| InterpHeap.Slab.Alloc | crates/cb-backend-interp/src/heap.rs:46-63 | the slab's allocation from free list or growth, as the abstract allocation on its view |
| InterpHeap.Slab.Free | crates/cb-backend-interp/src/heap.rs:79-88 | a freed slot is emptied, its generation moves on modulo 2^32, and its index joins the free list |
| InterpHeap.TypeList.Append | crates/cb-backend-interp/src/heap.rs:110-116 | the in-place append equals the abstract append, with tail and both links |
| InterpHeap.TypeList.Unlink | crates/cb-backend-interp/src/heap.rs:118-138 | the in-place unlink equals the abstract unlink, with neighbours, tail and the node's own links |
| InterpHeap.Heap.New | crates/cb-backend-interp/src/interp.rs:610-628 | allocation and append on the mutable heap give the abstract NewType, lists of other types untouched |
| InterpHeap.Heap.Delete | crates/cb-backend-interp/src/interp.rs:794-813 | the mutable delete gives the abstract one; on a trap the heap is unchanged |
| InterpHeap.Heap.DeleteSlot | crates/cb-backend-interp/src/interp.rs:1408-1455 | delete through a variable: refused when the variable's deleted flag is set, else the variable is rewound and flagged |
| InterpHeap.Heap.Previous | crates/cb-backend-interp/src/interp.rs:760-787 | the predecessor, with the sentinel hidden and stale ids trapped, as the abstract read says |
| SlabGenerations.RunCounted | crates/cb-backend-interp/src/heap.rs:46-88 | in every run of a slab each slot's generation is the number of its frees modulo 2^32 |
| SlabGenerations.IdResolves | crates/cb-backend-interp/src/heap.rs:46-88 | in every run of a slab, an id handed out at any point resolves at the end exactly when its slot is in use and has been freed a multiple of 2^32 times since |
| InterpRefines.AllocFacts | crates/cb-backend-interp/src/heap.rs:46-63 | a fresh id resolved nothing before, resolves the new object now, disturbs no other id, and free list, entries and owners stay in agreement |
| InterpRefines.FreeSlots | crates/cb-backend-interp/src/heap.rs:79-88 | freeing empties the slot, disturbs no other slot's ids, and keeps the free list exact and duplicate-free, at any generation |
| InterpRefines.NewRefines | crates/cb-backend-interp/src/interp.rs:610-628 | NewType on the slab refines New on the reference lists: it never aborts and keeps the whole heap invariant |
| InterpRefines.DeleteRefines | crates/cb-backend-interp/src/interp.rs:794-813 | deleting a live instance refines the reference delete, keeps the invariant and rewinds to the reference's target, also where the generation wraps |
| InterpRefines.Resolves | crates/cb-backend-interp/src/heap.rs:65-77 | a handed-out id resolves exactly while its instance is in a list, or when its slot is in use again after a multiple of 2^32 frees |
| InterpRefines.IdsDistinct | crates/cb-backend-interp/src/heap.rs:46-94 | two nodes have the same id exactly when they are the same or had the same slot a multiple of 2^32 frees apart |
| InterpRefines.FewFrees | crates/cb-backend-interp/src/heap.rs:79-88 | while no slot has been freed 2^32 times, no stale id resolves and no two instances share an id |
| InterpRefines.FirstLastRefine | crates/cb-backend-interp/src/interp.rs:721-734 | First and Last give the reference lists' first and last instance, Null for an empty list |
| InterpRefines.StepRefines | crates/cb-backend-interp/src/interp.rs:629-787 | Next, Previous and the field check answer as the reference lists do, with the same trap on the same handles, unless the id resolves again |
| InterpRefines.NewHeapRefines | crates/cb-backend-interp/src/heap.rs:96-108 | the heap a program starts with refines one empty list per type |
| NativeRuntime.TypeRuntime.EnsureList | runtime/cb_type.cpp:55-76 | lists come into being on first use, with a sentinel, and stay where they are |
| NativeRuntime.TypeRuntime.New | runtime/cb_type.cpp:104-121 | the pointer writes of New give the abstract append; every other node keeps its view |
| NativeRuntime.TypeRuntime.Unlink | runtime/cb_type.cpp:91-100 | the pointer writes of unlink repair neighbours and tail and nothing else |
| NativeRuntime.TypeRuntime.Delete | runtime/cb_type.cpp:191-207 | traps for Null, deleted nodes and sentinels; otherwise unlinks, flags and returns the rewind target |
| NativeRefines.NewRefines | runtime/cb_type.cpp:104-121 | native New refines New on the reference lists, lazily created lists included |
| NativeRefines.DeleteRefines | runtime/cb_type.cpp:177-207 | native Delete of a live instance refines the reference delete and returns the address of its rewind target |
| NativeRefines.FirstLastRefine | runtime/cb_type.cpp:140-150 | native First and Last give the reference's first and last, for lists not created yet too |
| NativeRefines.StepRefines | runtime/cb_type.cpp:123-175 | native Next, Previous and check answer as the reference lists do, traps included |
| TypeSimulation.IStepExact | crates/cb-backend-interp/src/interp.rs:610-815 | one interpreter command has the contract's outcome if and only if it uses no deleted instance whose id resolves again, deletes no sentinel and is no second delete through a variable rewound to an instance; then it also keeps the relation |
| TypeSimulation.NStepRefines | runtime/cb_type.cpp:104-207 | every native command has the contract's outcome and keeps the relation |
| TypeSimulation.IRunExact | crates/cb-backend-interp/src/interp.rs:610-815 | an interpreter run has the contract's outcome at every point exactly when every command it reaches is such a one |
| TypeSimulation.NRunFollows | runtime/cb_type.cpp:104-207 | every native run has the contract's outcome |
| TypeSimulation.LookAlike | runtime/cb_type.h:16-33 | in related states the same variables are Null, and the same are equal except for two instances that had one slot a multiple of 2^32 frees apart |
| TypeSimulation.ProgramsAgree | runtime/cb_type.h:16-33 | from program start, the two runtimes go on or stop alike at every point of a run if and only if every command reached is one on which they agree |
| TypeSimulation.ProgramsLookAlike | runtime/cb_type.h:16-33 | after such a run the same variables are Null, and the same are equal if fewer than 2^32 instances were deleted |
| TypeSimulation.FewDeletesReviveNothing | crates/cb-backend-interp/src/heap.rs:79-88 | while fewer than 2^32 instances have been deleted, no variable's stale id resolves |
| SlotReuse.ReuseDiffers | crates/cb-backend-interp/src/heap.rs:79-88 | for every n, a program that reuses one slot n times: the native runtime reports the access through an old copy, the interpreter does so unless n is a multiple of 2^32 |
| TypeSimulation.SentinelDeleteDiffers | crates/cb-backend-interp/src/interp.rs:1425-1447 | a four-command program on which the interpreter deletes a sentinel and the native runtime reports a double delete |
| TypeSimulation.DoubleDeleteDiffers | crates/cb-backend-interp/src/interp.rs:1420-1423 | a four-command program on which only the interpreter reports the second delete |
| TypeForEach.NextAfterRewind | runtime/cb_type.cpp:152-163 | after a delete, Next of the rewound variable is what Next of the deleted node was, also for the first node of a list |
| TypeForEach.TurnMoves | crates/cb-backend-interp/src/interp.rs:735-759 | one loop turn, deleting or not, goes from the state of one visit to the state of the next |
| TypeForEach.ForEachVisitsAll | crates/cb-backend-interp/src/interp.rs:1408-1447 | iterating First, Next while deleting any subset visits each original instance once and in order on both runtimes, and then Null |
| TypeForEach.ForEachKeepsTheRest | crates/cb-backend-interp/src/interp.rs:1408-1447 | afterwards the list is exactly the undeleted instances, in order, on both runtimes |
| Machine.Interpreter.PushFrame | crates/cb-backend-interp/src/interp.rs:286-342 | the frame built in a recycled buffer by the two filling loops is the fresh frame of the call; depth limit first |
| Machine.Interpreter.Turn | crates/cb-backend-interp/src/interp.rs:344-386 | one turn of exec_loop is one machine step: result stored here, or left to the return when a frame was pushed; variables written in place with their deleted flags |
| Machine.Interpreter.EndBlock | crates/cb-backend-interp/src/interp.rs:388-488 | block ends: jumps, the Return that pops, recycles and stores into the caller's register, Halt and Trap |
| Machine.Interpreter.ExecLoop | crates/cb-backend-interp/src/interp.rs:344-489 | the loop is the iteration of the step, up to any number of turns |
| Machine.CallReturns | crates/cb-backend-interp/src/interp.rs:344-469 | a call whose recursive evaluation returns leaves the caller's frame as it was, except for pc + 1 and its register file, which holds the result in the register the call names, what it held in all others, and Void in between; and takes exactly the evaluation's turns |
| Machine.MachineRefinesEval | crates/cb-backend-interp/src/interp.rs:344-489 | from any state the explicit stack does what the recursive evaluation of the top frame says: value, trap, stop code or still running |
| Machine.ProgramRefinesEval | crates/cb-backend-interp/src/interp.rs:247-269 | a whole program stops within n turns exactly when its evaluation does, and the same way |
| Machine.RunIgnoresPool | crates/cb-backend-interp/src/interp.rs:299-301 | no run depends on what recycled buffers hold: no old register or local leaks |
| MachineLaws.StepStores | crates/cb-backend-interp/src/interp.rs:350-386 | an instruction that makes no call: its value arrives in its result register, every other register keeps its value, new ones in between are Void, and nothing else changes but what the instruction says of variables |
| MachineLaws.ReturnStores | crates/cb-backend-interp/src/interp.rs:412-447 | a Return leaves the value in the register its call named, register by register, and recycles the frame; the last one ends the program |
| MachineLaws.CallsPassArguments | crates/cb-backend-interp/src/interp.rs:492-531 | every kind of call passes on the values of the registers it names, in the order in which it names them |
| MachineLaws.IndirectCalls | crates/cb-backend-interp/src/interp.rs:945-964 | a call through a register calls the function in it; the empty pointer, Null and what is no function have their errors |
| MachineLaws.CallBinds | crates/cb-backend-interp/src/interp.rs:286-342 | in the frame of a call the i-th local is the i-th argument, missing parameters are Void, other variables have their defaults, and the caller waits behind the call |
| MachineLaws.CallRefused | crates/cb-backend-interp/src/interp.rs:286-298 | a call is refused exactly at 10000 frames, and aborts below that exactly for a body that is not there |
| MachineLaws.CallTakesBuffer | crates/cb-backend-interp/src/interp.rs:299-301 | a call takes the newest recycled buffer from the pool |
| MachineLaws.LoadAndStore | crates/cb-backend-interp/src/interp.rs:554-575 | loading yields the variable and changes nothing; storing replaces that variable, undeleted, and no other |
| MachineLaws.InPlace | crates/cb-backend-interp/src/interp.rs:674-898 | what a store through a variable, Redim and a delete leave in the variable and in its deleted flag, and when they refuse |
| MachineLaws.DeleteTwice | crates/cb-backend-interp/src/interp.rs:1408-1424 | a second delete through the same variable is refused until something is stored to it |
| MachineLaws.BranchTaken | crates/cb-backend-interp/src/value.rs:35-50 | a branch goes to its else block exactly for zero, the empty function pointer, Null and Void |
| MachineLaws.BlockEnds | crates/cb-backend-interp/src/interp.rs:388-488 | a jump starts its block, a Return gives its register or Void, Halt ends with its code, a trap and a missing terminator with their errors |
| StorePlace.WalkFollowsPlan | crates/cb-backend-interp/src/interp.rs:1575-1643 | a walk inside taken-out fields and borrowed arrays does what a plan made beforehand says, whatever the open fields hold |
| StorePlace.StoreFollowsPlan | crates/cb-backend-interp/src/interp.rs:1575-1643 | the whole effect of a store is known before it starts: one write, nothing but success, an error with nothing changed, or an abort |
| StorePlace.StoreIsResolveThenWrite | crates/cb-backend-interp/src/interp.rs:1575-1643 | a store equals resolve-then-write-one-cell if and only if no heap field or array is met twice, or only the final field is and it already holds the value |
| StorePlace.StoreIsLost | crates/cb-backend-interp/src/interp.rs:1614-1626 | a store that ends on a heap field it walked through reports success and changes nothing |
| StorePlace.FailingStoreChangesNothing | crates/cb-backend-interp/src/interp.rs:1575-1643 | a failing store leaves slot, heap and arrays unchanged, and without repeats its error is the first one on the way |
| StorePlace.StorePanicsExactly | crates/cb-backend-interp/src/interp.rs:1614-1638 | through valid handles a store aborts if and only if the first heap field or array it meets twice is an array |
| StorePlace.StoreNeverPanics | crates/cb-backend-interp/src/interp.rs:1630-1638 | so a store that meets no array twice does not abort |
| StorePlace.LostStoreExample | crates/cb-backend-interp/src/interp.rs:1614-1626 | the concrete store through a self-referring field that is lost |
| StorePlace.ReentryExample | crates/cb-backend-interp/src/interp.rs:1634-1637 | the concrete store that re-enters an array and aborts |
| StorePlace.WriteSame | crates/cb-backend-interp/src/interp.rs:1583-1588 | writing a place changes nothing exactly when the place holds the value already |
| StorePlace.Store.Walk | crates/cb-backend-interp/src/interp.rs:1575-1643 | the in-place recursion over slot, heap, arrays and borrow flags computes the walk and releases every borrow |
| StorePlace.FindName | crates/cb-backend-interp/src/interp.rs:1593-1611 | the first position of a name among the declared ones, and None exactly when it is not declared |
| StoreFields.FieldStore | crates/cb-backend-interp/src/interp.rs:1604-1626 | `n.f = v` on a live instance succeeds if and only if its type declares `f`, and then replaces the value at the first position of that name and nothing else |
| StoreFields.FieldStoreRefused | crates/cb-backend-interp/src/interp.rs:1589-1612 | on a deleted instance, a sentinel, Null and anything else it fails with the error of each, whatever follows |
| StoreFields.StructStore | crates/cb-backend-interp/src/interp.rs:1590-1600 | `s.f = v` on a value struct: if and only if it has the field, and then only that one changes |
| StoreFields.ElementStore | crates/cb-backend-interp/src/interp.rs:1627-1640 | `a[i] = v` replaces the element at the row-major offset, if and only if the indices are in range |
| StoreFields.WriteReadBack | crates/cb-backend-interp/src/interp.rs:1583-1588 | a place holds what was written to it, and every other field and element is as before |
| Arrays.IndicesOfOffset | crates/cb-backend-interp/src/heap.rs:186-200 | every in-range index vector is found again from its offset |
| Arrays.OffsetOfIndices | crates/cb-backend-interp/src/heap.rs:186-200 | every position below the total is the offset of an in-range vector, so the offset is a bijection |
| Arrays.OffsetKeepsOrder | crates/cb-backend-interp/src/heap.rs:186-200 | positions are ordered as their index vectors are, lexicographically: the last index varies fastest |
| Arrays.FlatIndex | crates/cb-backend-interp/src/heap.rs:186-200 | the backward stride loop in wrapping usize arithmetic gives the row-major offset of in-range vectors and None for all others |
| Arrays.ElemPosition | runtime/cb_array.cpp:117-139 | the forward Horner loop stays within int64 and gives the same offset, and None for negative, too large or too many indices |
| Arrays.StrideWithinTotal | crates/cb-backend-interp/src/heap.rs:190-198 | with no empty axis no stride exceeds the element count |
| Arrays.RustTotal | crates/cb-backend-interp/src/heap.rs:161-184 | the checked multiplications succeed exactly when every prefix product fits usize, with the product as result |
| Arrays.NativeTotal | runtime/cb_array.cpp:61-78 | allocation is refused exactly for a negative axis, a prefix product beyond int64, or a byte size beyond int64 |
| Arrays.AcceptsBySize | crates/cb-backend-interp/src/heap.rs:168-177 | with no empty axis each allocator accepts exactly the requests of at most 2^63 - 1 bytes in its own element size (an element of no bytes counts as one) |
| Arrays.AcceptanceAgrees | crates/cb-backend-llvm/src/codegen/func.rs:659-671 | so they agree if and only if the request is small enough for the larger element size or too large for the smaller one |
| Arrays.LargeScalarArrayDiffers | crates/cb-backend-llvm/src/codegen/func.rs:663-669 | 2^59 scalars: a request only the native runtime passes on to its allocator, for every scalar size |
| Arrays.AcceptanceExact | runtime/cb_array.cpp:64-73 | with an empty axis they agree if and only if the product of the axes before it does not lie between the int64 and the usize limit |
| Arrays.EmptyAxisDiffers | runtime/cb_array.cpp:64-73 | a request that only the interpreter accepts |
| Utf8.EncodeIsSequence | runtime/cb_utf8.h:37-59 | the encoding of a scalar value is a sequence of RFC 3629 section 4 that stands for it |
| Utf8.SequenceIsEncoding | runtime/cb_utf8.h:37-59 | every such sequence is the encoding of the number it stands for, a scalar value |
| Utf8.EncodeInto | runtime/cb_utf8.h:37-59 | the buffer gets the encoding and its length, length 0 for what is no scalar value, and nothing behind it changes |
| Utf8.DecodeEncode | runtime/cb_utf8.h:37-59 | an encoded string is well-formed and decodes to its code points |
| Utf8.CpLen | runtime/cb_utf8.h:13-19 | the loop counts the bytes that are no continuation bytes |
| Utf8.LeadsOfEncode | runtime/cb_utf8.h:11-19 | that count is the number of code points of a valid string |
| Utf8.ByteOffsetOfCp | runtime/cb_utf8.h:23-33 | the loop finds the k-th lead byte, or the length |
| Utf8.OffsetOfEncode | runtime/cb_utf8.h:21-33 | that offset is where the encoding of code point k starts, clamped to the end |
| Utf8.MatchIsAligned | runtime/cb_strfuncs.cpp:153-163 | a non-empty valid needle found among the bytes of a valid text stands at a code point boundary, as code points (self-synchronisation) |
| StrFuncs.LeftRefines | runtime/cb_strfuncs.cpp:111-117 | Left is the first n code points, clamped |
| StrFuncs.RightRefines | runtime/cb_strfuncs.cpp:119-128 | Right is the last n code points, clamped |
| StrFuncs.MidRefines | runtime/cb_strfuncs.cpp:218-230 | Mid is the n code points from a 1-based position, fewer at the end, nothing for positions below 1 |
| StrFuncs.RemoveRefines | runtime/cb_strfuncs.cpp:130-151 | StrRemove drops n code points at the clamped position |
| StrFuncs.InsertRefines | runtime/cb_strfuncs.cpp:366-383 | StrInsert puts the text before the clamped position; a negative position gives the empty string |
| StrFuncs.MoveRefines | runtime/cb_strfuncs.cpp:388-422 | StrMove cuts and re-inserts code points, with its three refusals and its unchanged case |
| StrFuncs.LSetRefines | runtime/cb_strfuncs.cpp:250-263 | LSet pads on the right or truncates to the first code points |
| StrFuncs.RSetRefines | runtime/cb_strfuncs.cpp:267-280 | RSet pads on the left or keeps the last code points |
| StrFuncs.InsertUndoesRemove | runtime/cb_strfuncs.cpp:130-151 | Insert(Remove(s,p,n), p, Mid(s,p,n)) = s if and only if p >= 1, or s is empty, or p = 0 and nothing was removed |
| StrFuncs.MovePermutes | runtime/cb_strfuncs.cpp:385-422 | Move keeps the multiset of code points if and only if it does not refuse its arguments (or the text is empty), and is Remove followed by Insert at the moved position |
| StrFuncs.LeftRightMeet | runtime/cb_strfuncs.cpp:111-128 | Left n and Right of the rest give back the string |
| StrFuncs.SetWidth | runtime/cb_strfuncs.cpp:248-280 | a set field is exactly as many code points wide as asked |
| StrFuncs.Flip | runtime/cb_strfuncs.cpp:341-361 | the two loops emit the byte groups in reverse order |
| StrFuncs.FlipRefines | runtime/cb_strfuncs.cpp:339-361 | Flip reverses the code points |
| StrFuncs.FlipTwice | runtime/cb_strfuncs.cpp:339-361 | Flip keeps text valid and is its own inverse |
| StrFuncs.Asc | runtime/cb_strfuncs.cpp:285-310 | the loop folds six bits of each following byte onto the first byte's payload, for any bytes |
| StrFuncs.AscOfBytes | runtime/cb_strfuncs.cpp:285-310 | Asc of any bytes, malformed ones too: 0 of none, the first byte if none follow it, else its payload and six bits of each following byte there is |
| StrFuncs.AscOfEncode | runtime/cb_strfuncs.cpp:282-310 | Asc of valid non-empty text is its first code point |
| StrFuncs.AscChr | runtime/cb_strfuncs.cpp:190-195 | Asc(Chr(c)) = c if and only if c is a scalar value |
| Search.ByteFind | runtime/cb_strfuncs.cpp:154-163 | the first position at or after the start where the bytes match, None if there is none |
| Search.InStrImpl | runtime/cb_strfuncs.cpp:167-180 | offset, byte search and count combine to the byte-level InStr |
| Search.NeedleFound | runtime/cb_strfuncs.cpp:167-180 | the first byte match of a non-empty needle is the encoding offset of its first code point match |
| Search.InStrIsFirstMatch | runtime/cb_strfuncs.cpp:165-188 | InStr is the first code point index at or after start where the needle occurs, or 0, if and only if the needle is not empty or start is at most one past the end; otherwise it answers with an index before the start |
| Words.CountWords | runtime/cb_strfuncs.cpp:427-439 | one more than the number of separator positions, overlapping ones included; 0 for empty text |
| Words.GetWord | runtime/cb_strfuncs.cpp:445-462 | the repeated cutting at the leftmost separator |
| Words.WordIsPiece | runtime/cb_strfuncs.cpp:441-462 | the n-th word is the n-th piece of the leftmost split, the last piece for larger n, empty for n <= 0 |
| Words.WordsAreFree | runtime/cb_strfuncs.cpp:445-462 | no word contains the separator |
| Words.CountAgainstSplit | runtime/cb_strfuncs.cpp:424-462 | the count is never below the number of pieces, and equal to it exactly when no two separators share a byte |
| Words.WordsJoinBack | runtime/cb_strfuncs.cpp:424-462 | joining words 1..CountWords with the separator gives back the text if and only if no two separators in it share a byte |
| Words.AllTextsJoinBack | runtime/cb_strfuncs.cpp:424-462 | for a given separator this holds of every text if and only if no proper prefix of it is also its suffix |
| Words.Replace | runtime/cb_strfuncs.cpp:234-246 | the in-place rewriting loop is the leftmost split joined with the replacement |
| Words.ReplaceRefines | runtime/cb_strfuncs.cpp:232-246 | byte-level Replace is replacement of code points |
| Words.WordRefines | runtime/cb_strfuncs.cpp:445-462 | the words of valid text are the words of its code points, so they are valid |
| SourceText.CharStep | crates/cb-frontend/src/lexer.rs:95-125 | in valid text a boundary starts a char, and stepping over it reaches the next boundary |
| LexTheorems.ScanGood | crates/cb-frontend/src/lexer.rs:162-244 | every scan_one ends behind its start on a char boundary; its diagnostics lie inside its token; it yields an error token exactly when it reports one |
| LexTheorems.TokensTile | crates/cb-frontend/src/lexer.rs:147-160 | the token spans tile the text without gap or overlap, on char boundaries, and their lexemes concatenate to the text |
| LexTheorems.DiagsInTokenOrder | crates/cb-frontend/src/lexer.rs:147-160 | the diagnostics of each token stand together, behind those about earlier text only and before those about later text only |
| LexTheorems.SignificantKeeps | crates/cb-frontend/src/lexer.rs:248-350 | without trivia exactly the blanks, comments and continuations are missing |
| LexTheorems.BomIsCursor | crates/cb-frontend/src/lexer.rs:148-151 | scanning starts behind U+FEFF if it is the first char, else at the beginning, at a char boundary |
| LexTheorems.BlockEndMatches | crates/cb-frontend/src/lexer.rs:352-399 | the close found for a block comment is the first point of the scan where as many non-overlapping `*/` as `/*` have passed, and none is found if there is no such point |
| LexGrammar.OpIsItsText | crates/cb-frontend/src/lexer.rs:978-1044 | a token is an operator if and only if its spelling stands there and what follows makes it no longer token, comment or continuation; it covers the spelling |
| LexGrammar.PunctIsItsText | crates/cb-frontend/src/lexer.rs:978-1044 | a token is punctuation if and only if its character stands there |
| LexGrammar.NewlineIsItsText | crates/cb-frontend/src/lexer.rs:257-276 | a line end token is CRLF, or CR or LF alone |
| LexGrammar.BlanksAreWhitespace | crates/cb-frontend/src/lexer.rs:248-255 | white space is a blank with all blanks behind it |
| LexGrammar.ContinuationIsItsText | crates/cb-frontend/src/lexer.rs:278-301 | a continuation is a backslash, nothing but blanks, and one line end; any other backslash is the operator |
| LexGrammar.CommentToLineEnd | crates/cb-frontend/src/lexer.rs:303-350 | `'` and `//` open a comment that reaches to the line end and does not take it |
| LexGrammar.NameIsItsToken | crates/cb-frontend/src/lexer.rs:933-974 | any name, read as far as it goes, is a comment if it is `rem` in any case, else the keyword of the table, else an identifier with the sigil that follows it |
| LexGrammar.NothingStarts | crates/cb-frontend/src/lexer.rs:208-244 | a char that starts no token is an error over that char |
| BrokenLiterals.BlockCommentMatches | crates/cb-frontend/src/lexer.rs:352-399 | a block comment ends behind the mark that matches its opener; without one the rest of the text is the error |
| BrokenLiterals.PlainBreaks | crates/cb-frontend/src/lexer.rs:407-444 | a plain literal that meets a line end first stops before it, one that meets neither quote nor line end takes the rest; each is reported over what it covers |
| BrokenLiterals.EscapedBreaks | crates/cb-frontend/src/lexer.rs:450-517 | likewise behind any written text of an escaped literal, also when a backslash stands before the line end or the end |
| BrokenLiterals.RawBreaks | crates/cb-frontend/src/lexer.rs:519-561 | a raw literal without a closer takes the rest and is reported over its opener |
| LexNumbers.CleanRun | crates/cb-frontend/src/lexer.rs:592-653 | an unsuppressed digit run is reported clean exactly when it is empty or of the form digit(_?digit)* |
| LexNumbers.RadixLiteral | crates/cb-frontend/src/lexer.rs:843-915 | a hexadecimal or binary token is the integer v exactly when its run is clean, non-empty, at most 64 digits and of value v < 2^64 |
| LexNumbers.DecimalLiteral | crates/cb-frontend/src/lexer.rs:690-837 | likewise for decimal runs, which are integers only without fraction and exponent |
| NumberLiterals.FloatLiteral | crates/cb-frontend/src/lexer.rs:690-837 | a decimal token with a fraction or an exponent is the float v if and only if an exponent mark is followed by digits, the separators of each part stand between digits, and the token without its separators has at most 64 bytes and converts to v |
| NumberLiterals.DecimalErrors | crates/cb-frontend/src/lexer.rs:690-837 | a decimal token is malformed if and only if its exponent lacks digits, or its parts are clean and give no number; it has bad separators if and only if its parts are not clean otherwise |
| NumberLiterals.RadixErrors | crates/cb-frontend/src/lexer.rs:843-915 | likewise for `$…` and `%…`, and each error ends with the run |
| NumberLiterals.StrippedConcat | crates/cb-frontend/src/lexer.rs:659-688 | removing separators respects concatenation |
| NumberLiterals.StrippedOne | crates/cb-frontend/src/lexer.rs:659-675 | it drops an underscore and keeps every other byte |
| NumberLiterals.RunComplaints | crates/cb-frontend/src/lexer.rs:592-653 | a run complains about exactly those of its separators that do not stand between two digits |
| NumberLiterals.LeadingComplaints | crates/cb-frontend/src/lexer.rs:843-880 | behind a prefix and an underscore: that underscore first, then exactly the separators misplaced in the whole run |
| NumberLiterals.DecimalComplaints | crates/cb-frontend/src/lexer.rs:690-760 | a decimal token reports exactly the separators misplaced in its three runs, from left to right, and then itself if it is malformed |
| NumberLiterals.PrintedScans | crates/cb-frontend/src/lexer.rs:843-915 | every number below 2^64 printed in decimal, hexadecimal (either case) or binary is one integer token of its value, wherever it stands |
| Lexing.Lexer.ScanBlockComment | crates/cb-frontend/src/lexer.rs:352-399 | nested comments: the depth loop finds the matching close, or reports the whole rest |
| Lexing.Lexer.ScanString | crates/cb-frontend/src/lexer.rs:407-444 | the first quote, line end or end of text decides, and a line end is not consumed |
| Lexing.Lexer.ScanDollarString | crates/cb-frontend/src/lexer.rs:450-517 | escapes skip one char, except before a line end |
| Lexing.Lexer.ScanRawString | crates/cb-frontend/src/lexer.rs:519-561 | scanning to three quotes in a row, with the opener as primary label at end of text |
| Lexing.Lexer.ScanDigitRun | crates/cb-frontend/src/lexer.rs:592-653 | the loop's diagnostics for leading, doubled and trailing separators are those of the run |
| Lexing.Lexer.AppendStripped | crates/cb-frontend/src/lexer.rs:659-675 | the 64-byte scratch buffer holds the digits without separators exactly when they fit |
| Lexing.Lexer.ScanNumberDecimalOrFloat | crates/cb-frontend/src/lexer.rs:690-837 | whole, fraction and exponent runs, the missing-digits error, and the text handed to the float conversion |
| Lexing.Lexer.ScanRadixNumber | crates/cb-frontend/src/lexer.rs:843-915 | prefix, pre-consumed leading separator and the one diagnostic for it |
| Lexing.Lexer.ScanIdent | crates/cb-frontend/src/lexer.rs:933-974 | identifier body, Rem comments, keywords and sigils |
| Lexing.Lexer.ScanOneToken | crates/cb-frontend/src/lexer.rs:162-244 | the dispatch on the first byte |
| Lexing.Lexer.Run | crates/cb-frontend/src/lexer.rs:147-160 | with preserved trivia the tokens are the whole stream, without it that stream minus trivia, with the same diagnostics and a final Eof at the end of the text |
| StringValue.DecodeEscaped | crates/cb-frontend/src/string_value.rs:68-260 | the decoding loop, with absolute diagnostic spans |
| StringValue.StripSlice | crates/cb-frontend/src/string_value.rs:68-90 | for any slice: mode marker and quotes are left out where they are there, and every span is shifted by what was left out in front |
| StringValue.TurnInStep | crates/cb-frontend/src/string_value.rs:91-257 | one turn of the decoder over an escaped token ends where the lexer had ended a step |
| StringValue.EscapedTokenDecodes | crates/cb-frontend/src/string_value.rs:102-120 | for every escaped token of the lexer the decoder never finds an incomplete escape, and all its spans lie between the quotes |
| EscapeSpelling.SpellingRoundTrip | crates/cb-frontend/src/string_value.rs:63-260 | any text, each code point written as it is, by its letter, by `\x` with two or `\u` with four hexadecimal digits of either case, or behind a needless backslash, and wrapped in `$"…"`, is one token wherever it stands and decodes to itself; the complaints are those about the needless backslashes, in order and with their spans |
| EscapeSpelling.EscapeRoundTrip | crates/cb-frontend/src/string_value.rs:63-260 | so any text, with backslash, quote, CR and LF escaped, decodes to itself without complaint |
| EscapeSpelling.FailingEscapes | crates/cb-frontend/src/string_value.rs:102-257 | what the decoder keeps of a backslash that is no escape, and the one complaint with its span: missing digits, surrogates, unknown letters, the end of the text |
| StringValue.PlainRoundTrip | crates/cb-frontend/src/lexer.rs:403-444 | a quoted text is one plain token if and only if it holds no quote and no line end (and is not the empty text before a quote), and it decodes to itself |
| StringValue.PlainEndsAtFirst | crates/cb-frontend/src/lexer.rs:403-444 | the first quote or line end decides a plain literal, whatever multi-byte chars precede it |
| StringValue.RawEndsAtFirst | crates/cb-frontend/src/lexer.rs:519-561 | a raw literal closes at the first three quotes in a row |
| RawString.SplitKeepNewlines | crates/cb-frontend/src/string_value.rs:401-417 | the lines of the content, each with its line feed |
| RawString.DecodeRaw | crates/cb-frontend/src/string_value.rs:295-397 | indent stripping by the closing line, with its three diagnostics |
| RawString.RawDiagsInside | crates/cb-frontend/src/string_value.rs:308-387 | every diagnostic of a raw literal lies inside it |
| RawString.RawScans | crates/cb-frontend/src/lexer.rs:519-561 | the lexer ends a raw literal at its own closer if and only if the body holds no three quotes in a row |
| RawString.RawRoundTrip | crates/cb-frontend/src/string_value.rs:285-294 | indented lines between delimiters on their own lines are one token, wherever they stand, if and only if no line holds three quotes in a row; and that token decodes without complaint to their text if and only if, besides, no line consists of blanks alone |
| RawLines.RawMeans | crates/cb-frontend/src/string_value.rs:285-397 | for any lines and any indent: a blank line keeps its line end, any other loses as many of its blanks as the indent is long, or all it has, and exactly the lines that do not start with the indent are reported, over the line; the break behind the opener is dropped |
| RawLines.CloserNotAlone | crates/cb-frontend/src/string_value.rs:308-340 | when the closer does not stand on a line of its own the body is kept as it is, with one complaint over the closer |
| Registry.StepKeeps | runtime/cb_object.cpp:258-617 | every registry command without stale handles keeps the registry invariant, and the log of freed objects only grows |
| Registry.RegistrySafe | runtime/cb_object.cpp:143-187 | after every run: live and draining objects are disjoint and are exactly the two disjoint draw chains; checks, pick list and last pick hold only live non-emitters; each object is freed at most once and none is lost |
| Registry.DrainFreeKeeps | runtime/cb_object.cpp:1593-1597 | the rogue loop may free an emitter without scrubbing checks and picks |
| Registry.RetireKeeps | runtime/cb_object.cpp:578-585 | retiring an emitter with live particles keeps the invariant although it stays in its draw chain |
| Registry.ClearKeeps | runtime/cb_object.cpp:603-617 | ClearObjects frees every allocated object exactly once and leaves nothing |
| Registry.OrderKeeps | runtime/cb_object.cpp:827-838 | ObjectOrder moves within the object's own chain |
| Registry.SetupCollisionKeeps | runtime/cb_object.cpp:961-979 | valid and invalid collision requests keep the invariant |
| Registry.PickableKeeps | runtime/cb_object.cpp:1357-1372 | ObjectPickable never lists an emitter or an object twice |
| Registry.DrainFromFacts | runtime/cb_object.cpp:1589-1602 | the index loop, which stands still when it erases, integrates each rogue once and frees exactly those left without particles |
| Registry.DrainTicksStep | runtime/cb_particle.h:73-85 | one integration brings an emitter one tick nearer to the end of its longest particle life, and empties it at the last tick |
| Registry.RogueDrains | runtime/cb_object.cpp:1589-1602 | in any run without ClearObjects a rogue is freed exactly at tick max(0, longest particle life) + 1, and not before |
| Registry.SpawnsWhatIsDue | runtime/cb_particle.h:92-109 | all emissions due happen, in order, and the counter keeps the rest of the interval; none for a density that is not positive |
| Registry.SteadyEmission | runtime/cb_object.cpp:1576-1583 | a running emitter in steady state emits once every `density` frames |
| RegistryEffects.DeleteDestroys | runtime/cb_object.cpp:586-599 | deleting an object that is no running emitter with particles takes it out of every list and every check and frees it; every other object, list member and check stays, in order |
| RegistryEffects.DeleteRetires | runtime/cb_object.cpp:570-585 | deleting a running emitter with particles stops it, moves it to the end of the draining ones, keeps its particles and its place in the draw chain, and frees nothing |
| RegistryEffects.DeletedForGood | runtime/cb_object.cpp:570-599 | whatever a program does after deleting an object, the object is never live again |
| RegistryEffects.CreatesLast | runtime/cb_object.cpp:258-330 | a new object is the last live one and the last of its draw chain, with a fresh number and the fields of its kind |
| RegistryEffects.CreationOrder | runtime/cb_object.cpp:143-150 | in every run the live objects are listed in the order of their creation |
| RegistryEffects.OrderMoves | runtime/cb_object.cpp:827-838 | direction 1 puts an object at the end of its chain and -1 at the beginning, the others keep their order, and other directions change nothing |
| RegistryEffects.CollisionRegisters | runtime/cb_object.cpp:961-979 | a collision request is registered, behind the others, exactly for the ten legal pairings without an emitter |
| RegistryEffects.PickableListed | runtime/cb_object.cpp:1357-1372 | who is put on the pick list, at its end and once, and who is taken off it |
| RegistryEffects.PickRemembers | runtime/cb_object.cpp:1380-1412 | a pick is what was hit if that is on the list and not the picker |
| RegistryEffects.SettersSet | runtime/cb_object.cpp:922-933 | the setters change their fields of one object, a negative life modulo 2^32 |
| RegistryEffects.ClearEmpties | runtime/cb_object.cpp:603-617 | nothing is left, everything was freed, and the enumeration starts over |
| RegistryEffects.IntegrateKeeps | runtime/cb_particle.h:73-85 | exactly the particles with life left stay, in order and a frame older |
| RegistryEffects.EmittedParticles | runtime/cb_particle.h:92-109 | n emissions are n times as many new particles as one has, each with its whole life |
| RegistryEffects.TickAges | runtime/cb_object.cpp:1573-1600 | what a tick does to one object: its life, its particles, its spawn counter |
| RegistryEffects.TickFacts | runtime/cb_object.cpp:1610-1626 | a tick ages every live object once and ends those whose life is over, and no others |
| RegistryEffects.LifeEnds | runtime/cb_object.cpp:1610-1626 | an object with a life of n frames is live exactly until the n-th tick, in any run that neither deletes it nor sets its life again; a life of 0 lasts 2^32 ticks |
| RegistryEffects.EnumerationVisitsAll | runtime/cb_object.cpp:935-943 | NextObject visits every live object once, in the order of creation, and then answers Null |
| RegistryRuntime.IntegrateAndCull | runtime/cb_particle.h:73-85 | the stable in-place compaction keeps exactly the particles with life left, in order |
| RegistryRuntime.SpawnDueLoop | runtime/cb_particle.h:92-109 | the two nested loops |
| RegistryRuntime.Objects.DeleteObject | runtime/cb_object.cpp:570-599 | the drain branch and the scrubbing branch, on the global lists |
| RegistryRuntime.Objects.ClearObjects | runtime/cb_object.cpp:603-617 | both lists are freed object by object, each still allocated when its turn comes |
| RegistryRuntime.Objects.ObjectOrder | runtime/cb_object.cpp:827-838 | to the front or the back of the object's chain |
| RegistryRuntime.Objects.UpdateRogueEmitters | runtime/cb_object.cpp:1589-1602 | the loop with erasure under the index |
| RegistryRuntime.Objects.UpdateTick | runtime/cb_object.cpp:1610-1626 | the snapshot loop stays within allocated objects although life expiry deletes under way, and the rogues drain after it |
| Include.VisitsExactlyReachable | crates/cb-driver/src/include.rs:83-141 | on any finite, possibly cyclic include graph the search visits exactly the files the main file reaches |
| Include.ReadsReachable | crates/cb-driver/src/include.rs:47-71 | exactly the readable reachable files are read, each once; exactly the unreadable ones are reported, each once |
| Include.MergedProgram | crates/cb-driver/src/include.rs:97-140 | each reached file contributes its own statements once and in source order; other files contribute nothing |
| Include.MergedIsFirstPaste | crates/cb-driver/src/include.rs:97-140 | the merged program is the textual pasting of every include, repeated ones too, with the first copy of each statement kept: a file stands where it is first included |
| Include.ReadInPasteOrder | crates/cb-driver/src/include.rs:119-137 | files are read in the order in which pasting first comes to them: a file before what it includes |
| Include.FailuresAtFirstInclude | crates/cb-driver/src/include.rs:114-138 | every failure is reported at the first include of its target in a file that was reached |
| Include.FailuresInReadOrder | crates/cb-driver/src/include.rs:119-138 | failures come in the order in which the files would have been read |
| Include.Resolver.ExpandFile | crates/cb-driver/src/include.rs:83-141 | the mutating recursion over visited set, sources, diagnostics and merged program terminates and computes the expansion |
| Include.Resolver.ResolveMain | crates/cb-driver/src/include.rs:47-71 | the main file counts as visited and read before the expansion |
| Convert.StringToLong | runtime/cb_convert.cpp:157-184 | the leading signed digits after white space, clamped to the largest 64-bit magnitude; the digit-by-digit saturation loses nothing else |
| Convert.LongRoundTrip | runtime/cb_convert.cpp:139-184 | reading back a printed 64-bit integer gives the integer if and only if it is not the least one, which comes back one too large |
| Convert.FormatDenotes | runtime/cb_convert.cpp:83-125 | for any six digits and any exponent the text reads as exactly the rounded number, and it has no exponent part exactly for exponents from -3 to 7 |
| Convert.FixedDenotes | runtime/cb_convert.cpp:89-110 | the fixed form denotes the number, in each of its three layouts |
| Convert.ScientificDenotes | runtime/cb_convert.cpp:111-122 | the scientific form denotes the number, with an exponent of at least three digits |
| NumberText.DecimalShortest | runtime/cb_convert.cpp:139-150 | the text of an integer has no zero in front and k digits are enough exactly below 10^k |
| NumberText.LongForm | runtime/cb_convert.cpp:139-150 | the texts of negative integers, and no others, start with a minus |
| NumberText.LongReads | runtime/cb_convert.cpp:154-184 | white space (five characters), a sign, digits and any rest read as the signed number of the digits, clamped; 0 without digits |
| NumberText.FixedForm | runtime/cb_convert.cpp:89-110 | the fixed form has one zero or no leading zero in front of the point, and one zero or no trailing zero behind it |
| NumberText.ScientificForm | runtime/cb_convert.cpp:111-122 | the scientific form has one digit in front of the point, no trailing zero behind it, and the exponent of the number |
| NumberText.ExponentForm | runtime/cb_convert.cpp:118-122 | the exponent has three digits, or as many as its number has |
| LineIndex.Source.constructor | crates/cb-diagnostics/src/source.rs:220-250 | the scan, which takes CRLF in one step, records exactly the positions behind the line ends |
| LineIndex.StartsTo | crates/cb-diagnostics/src/source.rs:210-250 | line starts are strictly increasing, each follows a line end, and the i-th start follows exactly i + 1 of them |
| LineIndex.Source.PartitionPoint | crates/cb-diagnostics/src/source.rs:276-278 | the binary search splits the starts at the offset |
| LineIndex.LineOf | crates/cb-diagnostics/src/source.rs:273-278 | that split is the naive count of LF, CR and CRLF terminators before the offset |
| LineIndex.Source.LineByteCol | crates/cb-diagnostics/src/source.rs:271-288 | the line of any offset by the naive count, and clamped offset = line start + column |
| LineIndex.Source.LineByteRange | crates/cb-diagnostics/src/source.rs:301-316 | the range of a line, None past the last |
| LineIndex.Source.RangesPartition | crates/cb-diagnostics/src/source.rs:297-316 | the ranges meet end to end from 0 to the length, only the last can be empty, and no terminator lies inside a line |
| LineIndex.Source.LineCharCol | crates/cb-diagnostics/src/source.rs:73-95 | the char column counts the code points from the line start to the last char boundary at or before the offset; the slice never cuts a char |

## Left out

- Field values of type instances in the two list runtimes, field layout and allocation failure of the native runtime; `StorePlace` has the field values instead.
- Machine.Interpreter.ExecLoop: runs for a given number of turns, because a CoolBasic program need not stop; the theorems hold for every number.
- The interpreter's observers and stack traces; arithmetic, string and runtime-call instructions, and what StorePlace, Redim and DeleteLvalue leave in their variable, are one opaque operation in `Machine` (`StorePlace` and `InterpHeap` have the last ones).
- StorePlace.Store.Walk: the state after a Rust panic is not described, only that there is one.
- InterpHeap.Slab.Alloc: the slot index is not narrowed to 32 bits; likewise source offsets beyond 2^32 and string lengths beyond 2^31.
- StrFuncs.Asc: 32-bit arithmetic is unbounded here; four bytes stay below 2^31.
- Upper, Lower, Trim, Hex, Bin and Repeat of the string library: byte-wise tables and copies.
- Message texts and secondary labels of diagnostics; the Unicode identifier classes, the keyword table and the decimal-to-double conversion, which are parameters.
- `decode`'s defensive slice for spans outside the source.
- Positions, angles, collision geometry, ray casts, textures, animation frames and per-object contact lists; which object a pick finds is a parameter. Camera follow targets, files, input and sound.
- Registry.Pick: whatever pickable object is nearest, or none.
- Reads through stale handles: the registry theorems assume the program uses none, as the handles are raw pointers.
- Include paths: a canonical key stands for a file and determines what it includes; lexing and parsing of the included text.
- Convert: `%.5e` itself, zero, NaN and infinities of the float printer, and the string-to-float conversion.
- SourceMap's name lookup.
