# Verified models of the phc runtime and its bundled libraries

This project models five parts of the repository in Dafny and proves what they are for.

1. **The PHP heap** (`Zval*.dfy`, `Php*.dfy`, `Plain*.dfy`). Slots in symbol tables and array
   tables point at reference-counted cells with a reference flag; assignments share cells, reference
   assignments merge slots, and writes separate first. `ZvalRuntime` is the operations on that memory
   as methods of a class with the fields they change; `ZvalRelease` says exactly what a release frees;
   `PhpStatements` and `PhpProgram` are the statements the code generator builds from the operations.
   Proved: counts are exact in every reachable state; a statement gets through exactly in the memories
   that `Fits` describes, and elsewhere stops, uses a freed cell, or uses a string offset, which is not
   modelled; it leaves alone whatever a variable, or a reference set of variables, that it does not name
   can read without passing a reference, exactly unless it is a nested unset that `Leaks`; the shared
   uninitialised cell stays as it is over whole runs; and runs refine a plain machine that only knows
   alias classes and values, each statement exactly under stated conditions.
   `PhpSharing` shows why references to array entries have no such meaning; `PhpLinks` says what they do,
   and what assignments leave, in any memory, and `PhpTables` what becomes of each sort of value.
2. **getopt** (`Getopt*.dfy`). `Parse` reads an argument vector once, from left to right, and knows
   nothing of calls, of stopping inside an element, or of moving arguments. The scanner, with its
   persistent state and its rotation of the vector, is proved against it: call by call each event is the
   next of the parse, and after a whole run the vector is the stable partition that the parse describes,
   in all three orderings, with long options and `-W`. `GetoptRoles` says what each element is,
   `GetoptEvents` what each event is, and `GetoptPrefix` what depends on the first call.
3. **The linked-list merge sort** (`SList.dfy`) on objects whose `next` fields are rewritten.
4. **The lowered heapsort** (`Heapsort.dfy`), as a program of labels and jumps with an assertion at
   each label, and the Ackermann function (`Ackermann.dfy`).
5. **libltdl** (`LtdlHandles.dfy`, `LtdlExit.dfy`, `Argz.dfy`, `LtdlPaths.dfy`, `LtdlDirs.dfy`): the
   reference-counted list of open modules with recursive unloading, shutting down, vectors of strings
   in byte buffers, the one-pass path normaliser, and search paths.

The primitives of the Zend engine are taken as: a new cell has count 1 and is no reference; releasing
a pointer lowers the count, frees at zero together with the table, and clears the reference flag at
one; copying an array copies its table and adds one use per entry.

## What the code does differently from what it says or means

- `$x[k] = $x` reads the right-hand side after the entry has been made
  (`runtime/templates/templates_new.c:614-617`). The array is then shared with itself, or, in a
  reference set, the stored copy has the entry that was just added. `PlainRuns.AssignArrayExactly`
  gives the exact condition under which an array assignment means a copy. In a reference set whose array
  has the entry already, with a cell of its own, the copy meets that cell freed
  (`PhpStatements.StoreFreed`).
- `unset ($x[i][j])` separates the outer array only (`src/codegen/Generate_C.cpp:2253-2289`), so the
  entry also disappears from other variables that share the inner array
  (`PhpStatements.NestedUnsetLeaks`), exactly when `Leaks`, or for the plain meaning `Spreads`, says so.
- `write_var` and `copy_into_ref` release the left-hand side before they use the right-hand side
  (`runtime/zval.c:104-115`, `runtime/zval.c:65-68`): `$x = $x[k]` and `$x =& $x[k]` go on with freed
  cells while nobody else holds the array (`PhpStatements.AccessFreed`, `PhpStatements.AccessShared`).
- `push_and_index_ht` replaces the cell of a NULL, false or empty-string variable even in a reference
  set, which that variable then leaves (`runtime/arrays.c:407-412`, `PlainRuns.AssignNextExactly`).
- After an ambiguous `-W name`, `getopt` steps over one element too many
  (`3rdparty/getopt/getopt.c:865-873`): an operand behind it is lost (`GetoptRoles.OperandSwallowed`),
  and at the end of the vector the scan goes on behind it (`GetoptRoles.EndOverrun`).
- Only the first call of `getopt` steps over a leading `+` or `-` of the option string
  (`3rdparty/getopt/getopt.c:401-410`); later calls take it for an option letter and do not see a `:`
  behind it (`GetoptPrefix.PrefixShows`).
- The comments of `libltdl/slist.c` call its merge sort a quicksort.
- `lt_dlpath_insertdir` inserts `dir`, not the normal form it has just computed
  (`libltdl/ltdl.c:2145`): the path stays in normal form exactly when `dir` is in it.
- `canonicalize_path` is not idempotent: `a:/:b` becomes `a::b`, then `a:b`
  (`LtdlPaths.CanonOnceFails`; `LtdlPaths.CanonOnce` says when one application is enough).

## Model

| member | source | states |
|---|---|---|
| ZvalRuntime.Runtime.constructor | runtime/misc.c:52-67 | At start-up the uninitialised cell is NULL, no reference, and held once; all counts are exact |
| ZvalRuntime.Runtime.ZvalPtrDtor | runtime/methods.c:8-17 | Releasing a pointer keeps every count exact, frees exactly the doomed cells, and changes nothing else but the reference flag of a cell left with one holder |
| ZvalRelease.FreesDoomed | runtime/methods.c:8-17 | A release frees a cell if and only if the cell is doomed |
| ZvalRelease.DoomedHolders | runtime/methods.c:8-17 | A cell is doomed if and only if each of its holders is given up or an entry of a doomed array |
| ZvalRelease.ReleaseExactly | runtime/methods.c:8-17 | The memory after a release, counts and flags included, is a function of the memory before |
| ZvalRuntime.Runtime.DestroyTable | runtime/zval.c:73-83 | Taking a table apart releases exactly its entries and terminates, however the arrays are nested |
| ZvalRuntime.Runtime.CopyTable | runtime/zval.c:4-15 | The copy has the entries of the original, entry by entry, and every shared cell is counted once more |
| ZvalRuntime.Runtime.ZvpCloneEx | runtime/zval.c:4-15 | A fresh cell of count one with the value and entries of the original; no existing cell changes |
| ZvalRuntime.Runtime.SepCopyOnWrite | runtime/zval.c:29-43 | Afterwards the slot is not in copy-on-write; a shared cell was replaced by a fresh copy and lost one holder, and nothing else changed |
| ZvalRuntime.Runtime.CopyIntoRef | runtime/zval.c:60-69 | Only the left slot moves, into the reference set of the right one, and counts stay exact; it gets through exactly when the arrays of both slots outlive the release |
| ZvalRuntime.Runtime.OverwriteLhs | runtime/zval.c:72-83 | The cell keeps its place and holders and takes over value and entries of the other, exactly when both outlive the cell's own table; a reference stays one exactly if two holders do |
| ZvalRuntime.Runtime.WriteVar | runtime/zval.c:97-122 | A reference is written in place for its whole set, and stays one exactly if two of its holders outlive its own table; any other slot shares the value, or holds its own copy of a reference; nothing else is touched; it gets through exactly when the release frees nothing that is used next |
| ZvalRuntime.Runtime.GetStEntry | runtime/zval.c:124-146 | An unknown variable is bound to the uninitialised cell, counted once more; a known one is left alone |
| ZvalRuntime.Runtime.ReadVar | runtime/zval.c:148-160 | Reads the variable's cell, or the uninitialised one, and changes nothing |
| ZvalRuntime.Runtime.ReadArray | runtime/arrays.c:310-333 | Reads the entry's cell, or the uninitialised one, and changes nothing |
| ZvalRuntime.Runtime.CheckArrayType | runtime/arrays.c:335-361 | NULL, false and "" become an empty array, in place for a reference and in a new cell otherwise; other values stay |
| ZvalRuntime.Runtime.GetHtEntry | runtime/arrays.c:208-244 | The array of the slot is its own or a reference, keeps its other entries, and has the entry; a non-empty string is refused unchanged |
| ZvalRuntime.Runtime.PushAndIndexHt | runtime/arrays.c:387-426 | Text is fatal, true and numbers are refused, both unchanged; anything else gets the entry for the next index, above all there are, and 0 in a new array |
| ZvalRuntime.Runtime.HashDel | runtime/unset.c:21-25 | The slot is gone, everything not held through it stays, and counts are exact |
| ZvalRuntime.Runtime.ConvertTo | runtime/misc.c:2-39 | The conversion happens in the cell itself: a scalar loses the table, an array holds the scalar at index 0 |
| ZvalFrame.CleanReadsKept | runtime/zval.c:29-43 | What an operation does not name is read as before, along every chain of accesses that passes no reference, if it rewrites in place only references and cells nobody else holds |
| ZvalReads.SeparationInvisible | runtime/zval.c:29-43 | After a separation every cell, and the slot itself, reads as before at every depth, whatever references there are |
| ZvalReads.AssignmentStoresCopy | runtime/zval.c:97-122 | write_var is read everywhere as a plain copy into the slot, or into the cell its reference set shares, except for an array stored into itself |
| ZvalReads.SelfStoreIsCyclic | runtime/templates/templates_new.c:601-623 | `$x[k] = $x` outside a reference set reads as an array at every depth |
| ZvalReads.ReferenceMovesSlot | runtime/zval.c:60-69 | A reference assignment is read everywhere as moving one slot |
| ZvalReads.ReleaseInvisible | runtime/unset.c:21-25 | Unsetting a variable changes nothing that anyone else reads |
| PhpSharing.SharingHides | runtime/zval.c:29-43 | With a reference in an array, two memories that differ in what has been separated read alike everywhere |
| PhpSharing.ApartReached | src/codegen/Generate_C.cpp:2246-2292 | The unset of an entry that is not there leads from the one to the other |
| PhpSharing.TogetherKeeps | runtime/zval.c:97-122 | After `unset ($r); $b[0] = 7` the one reads 5 at `$a[0]`, as before |
| PhpSharing.ApartWrites | runtime/zval.c:97-122 | The other then reads 7 there |
| PhpSharing.BothFit | runtime/templates/templates_new.c:601-623 | Both statements get through from any memory whose `$b` holds neither text nor a reference |
| PhpLinks.ArrayRefTies | runtime/templates/templates_new.c:625-645 | After `$x[k] =& $y`, when `$x` held an array or what becomes one, the entry and `$y` hold one cell, a reference that looks as the cell of `$y` did; the array has its other entries; nothing else was changed |
| PhpLinks.NextRefTies | runtime/templates/templates_new.c:582-595 | The same of `$x[] =& $y` |
| PhpLinks.RefAccessTies | runtime/templates/templates_new.c:336-345 | The same of `$x =& $y[k]`, with what the entry held, `$x` itself included |
| PhpLinks.VarRefTies | runtime/templates/templates_new.c:119-125 | After `$x =& $y` both hold one cell, a reference that looks as the cell of `$y` did |
| PhpLinks.TiedReads | runtime/zval.c:60-69 | Every root then reads, at every depth, as in the memory in which only the entry and the variable were changed |
| PhpLinks.LinkReads | runtime/zval.c:60-69 | Variable and entry read as before, unless a chain leads from there to the array |
| PhpLinks.OthersReadOn | runtime/arrays.c:208-244 | So do the other entries |
| PhpLinks.LaterSeen | runtime/zval.c:97-122 | A later assignment to the variable is read through the array |
| PhpLinks.VarHolds | runtime/templates/templates_new.c:106-114 | In any memory `$x = rhs` leaves the value and the entries of the right-hand side in `$x`; a reference stays the cell it was |
| PhpLinks.AccessHolds | runtime/templates/templates_new.c:300-334 | `$x = $y[k]` those of the entry, or NULL |
| PhpLinks.StoreHolds | runtime/templates/templates_new.c:601-623 | `$x[k] = rhs` and `$x[] = rhs` leave them in the entry, and the other entries as they were; an entry that was a reference is written through |
| PhpLinks.UnsetHolds | runtime/unset.c:21-25 | After `unset ($x)` the variable is unknown |
| PhpLinks.UnsetElemHolds | src/codegen/Generate_C.cpp:2246-2292 | After `unset ($x[k])` it has exactly its other entries, in any memory |
| PhpTables.CastHolds | runtime/misc.c:2-39 | A cast does nothing to a value of the kind, sort by sort; else it leaves an empty array of NULL, an array with the value at index 0 of another scalar, or what the conversion says |
| PhpTables.StoreRefused | runtime/arrays.c:335-426 | A store into true or a number changes nothing |
| PhpTables.TextStops | runtime/arrays.c:387-426 | Reference stores, and pushes at the next index, get through if and only if the variable holds no non-empty string |
| PhpTables.PushAppends | runtime/arrays.c:387-426 | A push makes a new entry, above all indices there are, and at 0 in a new array |
| PhpProgram.DoAssignVar | runtime/templates/templates_new.c:106-114 | The template for `$x = rhs` takes the step, from and to a memory with exact counts |
| PhpProgram.DoAssignRef | runtime/templates/templates_new.c:119-125 | The template for `$x =& $y` separates the right side first and takes the step |
| PhpProgram.DoAssignCast | runtime/templates/templates_new.c:130-134 | The template for a cast assigns, separates and converts |
| PhpProgram.CastVar | runtime/misc.c:2-39 | A cast converts a cell that only the variable's reference set can see |
| PhpProgram.DoUnsetVar | runtime/unset.c:21-25 | Unsetting takes the step |
| PhpProgram.DoAssignArray | runtime/templates/templates_new.c:601-623 | The template for `$x[k] = rhs` takes the step if and only if `$x` holds no text and a store of its own reference set does not free the entry it copies |
| PhpProgram.DoAssignArrayRef | runtime/templates/templates_new.c:625-645 | The template for `$x[k] =& $y` takes the step if and only if `$x` holds no text |
| PhpProgram.DoAssignNext | runtime/templates/templates_new.c:567-580 | The template for `$x[] = rhs` takes the step if and only if `$x` holds no text |
| PhpProgram.DoAssignNextRef | runtime/templates/templates_new.c:582-595 | The template for `$x[] =& $y` takes the step if and only if `$x` holds no text |
| PhpProgram.DoAssignAccess | runtime/templates/templates_new.c:300-334 | The template for `$x = $y[k]` takes the step if and only if `$y` holds no string and the value outlives the release of `$x` |
| PhpProgram.DoAssignRefAccess | runtime/templates/templates_new.c:336-345 | The template for `$x =& $y[k]` separates the entry and takes the step if and only if `$y` holds no text, or, for `$x` itself, if and only if it is a reference that holds or becomes an array |
| PhpProgram.DoUnsetElem | src/codegen/Generate_C.cpp:2246-2292 | The code for `unset ($x[i]...[k])` separates the variable, reads one array after the other, and takes the step if and only if it does not come to a string |
| PhpProgram.Execute | runtime/misc.c:52-67 | A program leaves a run: a chain of memories, each with exact counts and each a step of its statement from the one before, to the end or to the first statement that does not fit |
| PhpProgram.Do | runtime/templates/templates_new.c:106-645 | A statement takes its step if and only if the memory before fits it |
| PhpStatements.AccessFreed | runtime/templates/templates_new.c:300-345 | After `$x = [5]` neither `$x = $x[0]` nor `$x =& $x[0]` gets through |
| PhpStatements.AccessShared | runtime/templates/templates_new.c:300-345 | With a second holder `$x = $x[0]` does, and `$x =& $x[0]` does not |
| PhpStatements.StoreFreed | runtime/templates/templates_new.c:601-623 | After `$x = [5]; $y =& $x` the store `$x[0] = $x` does not get through |
| PhpStatements.StepIsolates | runtime/zval.c:29-122 | A statement keeps every variable it does not name, and every reference set of such variables without array entries, with all they can read without passing a reference on the way, if and only if it does not leak |
| PhpStatements.RunIsolates | runtime/arrays.c:208-244 | Copy-on-write over whole runs in which no nested unset leaks: a variable that no statement names reads the same along every chain that passes no reference |
| PhpStatements.RunIsolatesSet | runtime/arrays.c:208-244 | The same for a reference set of variables: it keeps exactly its members, and what they share reads the same along every chain that passes no other reference |
| ZvalFrame.KeptSets | runtime/zval.c:46-122 | What an operation does not name of reference sets is kept: no operation touches them, or makes anybody join them |
| PhpStatements.RunKeepsFixed | runtime/misc.c:52-67 | In every run the uninitialised cell and the literals keep place and value, are no references, and keep a holder |
| PhpStatements.RemoveIsolates | src/codegen/Generate_C.cpp:2246-2292 | Removing an entry in place isolates if and only if it is not there, or is a reference, or no other root, or reference set of other roots, sees its array |
| PhpStatements.UnsetElemIsolates | src/codegen/Generate_C.cpp:2246-2292 | The same of the whole statement, on the memory before it |
| PhpStatements.NestedUnsetLeaks | src/codegen/Generate_C.cpp:2263-2289 | After `$x = [[5]]; $y = $x` the statement `unset ($x[0][0])` leaks |
| PlainUnset.UnsetExactly | src/codegen/Generate_C.cpp:2246-2292 | `unset ($x[i]...[k])` keeps the plain meaning if and only if the inner array is reached in no other way |
| PlainRuns.StartAgrees | runtime/misc.c:52-67 | The memory at start-up agrees with the empty store |
| PlainProgram.InternAgrees | src/codegen/Generate_C.cpp:2656-2671 | A literal that enters the pool leaves the memory in agreement with the store that has it |
| PlainProgram.DoPlainly | runtime/templates/templates_new.c:106-645 | A statement gets through and keeps the plain meaning if and only if it fits the memory, stays within the condition on the store, and shows nowhere else; references to and of array entries excepted |
| PlainProgram.RunProgram | src/codegen/Generate_C.cpp:2656-2671 | From the engine's start through any literals and statements, as far as they get through within the conditions, the memory agrees with the plain machine |
| PlainRuns.StepAgrees | runtime/zval.c:32-122 | A statement takes agreeing memory and store to agreeing memory and store |
| PlainRuns.RunRefines | runtime/zval.c:32-122 | Refinement: after a whole program every variable is in the alias class, and has the value, that the plain machine gives it |
| PlainRuns.RunReads | runtime/zval.c:32-122 | Every access then reads what the plain value says, and two variables share a reference cell exactly when they are in one class |
| PlainRuns.StepFinite | runtime/zval.c:32-122 | The plain machine never builds a value that nests for ever |
| PlainRuns.StepExactly | runtime/zval.c:32-122 | A statement that gets through and is no reference to or of an entry keeps the plain meaning if and only if the condition `Within` on the plain store holds and it does not spread |
| PlainRuns.AssignNextExactly | runtime/arrays.c:387-426 | A `$x[] = rhs` that gets through keeps it if and only if, besides, `$x` is not a NULL, false or empty variable of a reference set |
| PlainRuns.AssignArrayExactly | runtime/templates/templates_new.c:601-623 | A `$x[k] = rhs` that gets through keeps the plain meaning if and only if rhs is outside the class of `$x`, or `$x` is shared and has the entry already, or no array is opened |
| GetoptSpec.StrictFindsLess | 3rdparty/getopt/getopt.c:647-687 | Whatever `-W name` resolves to, `--name` resolves to, and they find nothing together |
| GetoptSpec.StrictDiffers | 3rdparty/getopt/getopt.c:839-873 | They differ exactly on a name that is nobody's own, abbreviates two options or more, and these all do the same |
| GetoptEvents.ResolveMeans | 3rdparty/getopt/getopt.c:650-687 | A full name wins, the first of several; else the first option abbreviated, unless two that are abbreviated differ in argument, flag or value, or, behind `-W`, unless there are two |
| GetoptEvents.OperandMeans | 3rdparty/getopt/getopt.c:531-540 | An element is no option if and only if it is empty, does not begin with `-`, or is `-` |
| GetoptEvents.LongMeans | 3rdparty/getopt/getopt.c:689-745 | `--name` returns the value of the option found, or 0 if it has a flag; the argument is the text behind `=`, or the next element when one is required; else why it is an error, with `optopt` |
| GetoptEvents.NamedMeans | 3rdparty/getopt/getopt.c:865-922 | The same behind `-W`, where the argument is the text itself when there is no other, an unknown name returns W, and an ambiguous one uses up an element |
| GetoptEvents.ShortMeans | 3rdparty/getopt/getopt.c:780-968 | What follows the letter in the option string decides: nothing, an argument from the rest of the element or from the next, one from the rest only, or a long name |
| GetoptEvents.EventsFrom | 3rdparty/getopt/getopt.c:543-968 | Every event of a parse comes from an element: a long option that the element names, or a declared letter in it, with the argument that stands behind it; or an operand |
| GetoptEvents.ValuesReturned | 3rdparty/getopt/getopt.c:739-744 | Every event of a long option has the option's value, or 0 if it has a flag |
| GetoptRoles.Partition | 3rdparty/getopt/getopt.c:543-618 | A parse splits the vector in two by the roles of its elements, and keeps the order of both parts |
| GetoptRoles.RolesFit | 3rdparty/getopt/getopt.c:543-968 | Each element in front is an option element, the `--` that ends them, an operand returned in order, an argument handed out, the name behind a lone `-W`, or the one behind an ambiguous name; the others are not written like options or stand behind `--`; with REQUIRE_ORDER the first of them is one of these and all the rest follow |
| GetoptRoles.SwallowedExactly | 3rdparty/getopt/getopt.c:865-873 | An element is lost, or the end stepped over, if and only if some `-W` name of the run is ambiguous |
| GetoptRoles.OperandSwallowed | 3rdparty/getopt/getopt.c:865-873 | With `-W foo operand` and two options that begin with foo the operand is lost |
| GetoptRoles.EndOverrun | 3rdparty/getopt/getopt.c:865-873 | With `-W foo` the scan goes on behind the vector |
| GetoptSpec.OverrunExactly | 3rdparty/getopt/getopt.c:808-873 | A call steps over the end exactly for an ambiguous `-W` name in the last element |
| GetoptSpec.NoOverrun | 3rdparty/getopt/getopt.c:774-968 | Without `W;` no call of any run does |
| GetoptSpec.EventsNotDone | 3rdparty/getopt/getopt.c:505-969 | No event of a parse is mistaken for the end, unless an option's value is -1 |
| GetoptScanner.SwapBlocks | 3rdparty/getopt/getopt.c:343-349 | The swap loop exchanges two blocks and nothing else |
| GetoptScanner.Getopt.Exchange | 3rdparty/getopt/getopt.c:298-376 | The operands and the options behind them change places, all else stays, with exactly a + b - gcd(a, b) swaps |
| GetoptScanner.GcdIsGreatest | 3rdparty/getopt/getopt.c:334-370 | The number that the swap count speaks of is the greatest common divisor |
| GetoptScanner.Getopt.Initialize | 3rdparty/getopt/getopt.c:383-414 | A leading character or POSIXLY_CORRECT chooses the ordering, and nothing is skipped yet |
| GetoptScanner.OrderingMeans | 3rdparty/getopt/getopt.c:401-414 | With a leading `-` an operand is handed out; with `+`, or POSIXLY_CORRECT, it ends the options; otherwise it is set aside and the rest is parsed as if it was not there |
| GetoptPrefix.PrefixExactly | 3rdparty/getopt/getopt.c:401-410 | For every cluster a later call does what the first would have done if and only if the case is harmless: no missing argument with a `:` behind the prefix, and the prefix not among the letters of the cluster in a way that shows |
| GetoptPrefix.LongPrefixExactly | 3rdparty/getopt/getopt.c:401-410 | For every long option, if and only if no required argument is missing with a `:` behind the prefix |
| GetoptPrefix.PrefixShows | 3rdparty/getopt/getopt.c:401-410 | Option strings and clusters on which they differ, and one on which they do not |
| GetoptScanner.FindLong | 3rdparty/getopt/getopt.c:650-687 | The loop finds the first exact match; else the first abbreviation if the others agree (or, strictly, if there is no other); else reports ambiguity |
| GetoptScanner.Getopt.TakeLong | 3rdparty/getopt/getopt.c:689-745 | The argument of a long option comes from behind `=`, or from the next element if it is required, or is refused or missing |
| GetoptScanner.Getopt.LongElement | 3rdparty/getopt/getopt.c:635-770 | A `--name` element does what the parse says of it |
| GetoptScanner.Getopt.NamedOption | 3rdparty/getopt/getopt.c:797-920 | `-W name` does what the parse says of it |
| GetoptScanner.Getopt.ShortOption | 3rdparty/getopt/getopt.c:772-968 | The next letter of a cluster does what the parse says of it |
| GetoptScanner.Getopt.Regroup | 3rdparty/getopt/getopt.c:556-562 | Options behind skipped operands change places with them: what is done, skipped and left stays the same |
| GetoptScanner.Getopt.SkipOperands | 3rdparty/getopt/getopt.c:554-570 | Exactly the leading operands are skipped too |
| GetoptScanner.Getopt.EndAtDashes | 3rdparty/getopt/getopt.c:572-600 | `--` comes behind the options, then the skipped operands, then the rest, with `optind` between |
| GetoptScanner.Getopt.Advance | 3rdparty/getopt/getopt.c:543-618 | Going to the next element ends, hands out an operand, or starts an option, with the vector regrouped |
| GetoptScanner.Getopt.Next | 3rdparty/getopt/getopt.c:505-969 | Each call takes the next event off the parse of the rest and keeps the vector the rest leads to; what is not scanned is not touched; it steps over the end only where the parse does; its event is that of an element not scanned yet, with the right value |
| GetoptScanner.Getopt.Drain | 3rdparty/getopt/getopt.c:990-1053 | Calling until -1 returns the events of the parse and leaves option elements, then operands, with `optind` between |
| GetoptScanner.FinalVector | 3rdparty/getopt/getopt.c:231-238 | That vector is a permutation, its first element stays, each side of `optind` is in the original order, and each element in front is what its role says |
| GetoptScanner.ScanVector | 3rdparty/getopt/getopt.c:990-1053 | A whole run from a fresh scanner, whenever the scan does not run over the end: the events of the parse, and the vector permuted with options in front of `optind`, operands behind, both in the order given, each element as its role says, and each event from an element, with the right value |
| SList.SortPermutes | libltdl/slist.c:306-336 | Sorting loses and invents no item, whatever the comparison does |
| SList.SortOrders | libltdl/slist.c:306-336 | Under a total preorder the result is sorted |
| SList.SortStable | libltdl/slist.c:272-336 | Items that compare equal keep their order |
| SList.SortedMeans | libltdl/slist.c:299-336 | For a comparison that is total and transitive on the data: the same items; of two items in the result the first compares at most zero with the second; and an item in front of another that it does not compare above stays in front of it |
| SList.SortMerge | libltdl/slist.c:262-297 | Two lists without common items become one list of exactly the merged items, through `next` alone |
| SList.MergeLoop | libltdl/slist.c:280-292 | The loop links the merged items so far and leaves the rest of both lists as they were |
| SList.Halve | libltdl/slist.c:314-330 | The two-speed walk cuts a list of two items or more into its first half and the rest, neither of them empty |
| SList.Sort | libltdl/slist.c:306-336 | The linked list returned is exactly the sorted sequence of the nodes given, whose data then never goes down by the comparison; the recursion ends |
| Heapsort.HeapTop | misc/bench.ideal.c:9087-9150 | The first of a heap is the largest |
| Heapsort.LowerHole | misc/bench.ideal.c:9894-10072 | Pulling the larger child up keeps the heap around the hole and all that is behind it |
| Heapsort.FillHole | misc/bench.ideal.c:10148-10193 | Filling a hole whose children are covered gives a heap |
| Heapsort.TakeTop | misc/bench.ideal.c:10195-10392 | Moving the first behind the heap extends the sorted tail and opens a hole at the top |
| Heapsort.StepHolds | misc/bench.ideal.c:9280-10427 | Every block establishes the assertion of the label it jumps to, in both phases |
| Heapsort.StepKeeps | misc/bench.ideal.c:9280-10427 | Every block keeps the items, counting the one in hand |
| Heapsort.StepNearer | misc/bench.ideal.c:9280-10427 | Every block comes nearer to the return |
| Heapsort.Block | misc/bench.ideal.c:9280-10427 | The statements of a block do its step |
| Heapsort.Sort | misc/bench.ideal.c:9087-9150 | For n >= 2 the program ends with `ra[1..n]` sorted and a permutation, and the rest of the array untouched |
| Ackermann.AckThree | misc/bench.ideal.c:1876-1899 | Ack(3, n) is 2^(n+3) - 3 for every n; the recursion ends |
| Ackermann.AckGrows | misc/bench.ideal.c:1876-1899 | Ack is strictly increasing in both arguments |
| LtdlHandles.Modules.Close | libltdl/ltdl.c:1922-1984 | Closing keeps every count equal to the outstanding uses, closes dependencies nobody else needs, and ends; an unknown handle is an error and changes nothing |
| LtdlHandles.Modules.Unload | libltdl/ltdl.c:969-989 | The dependencies of a closed module are given back, resident ones excepted |
| LtdlHandles.Modules.Open | libltdl/ltdl.c:1404-1493 | Opening succeeds if and only if the name is open or a loader takes it; a name that is open gives its handle and opens nothing; otherwise the module is put in front, and every module opened with it is a new name, linked against exactly what its file lists as far as that can be opened, the last first, all of it open; uses are counted exactly; older modules keep their place and residency; a failure leaves the list as it was |
| LtdlHandles.Modules.OpenAgain | libltdl/ltdl.c:378-394 | A module that is there gains a use and the uses taken for it are given back |
| LtdlHandles.Modules.OpenFails | libltdl/ltdl.c:1410-1437 | When no loader takes the module, everything loaded for it is given back |
| LtdlHandles.Modules.LoadDeplibs | libltdl/ltdl.c:930-950 | The names that are open or that a loader takes are opened in reverse order, and each is held once |
| LtdlHandles.WantedMeans | libltdl/ltdl.c:930-950 | These are exactly the names listed that can be opened, from the last to the first |
| LtdlHandles.Modules.Find | libltdl/ltdl.c:378-387 | Finds a handle with the name, or there is none |
| LtdlHandles.Modules.MakeResident | libltdl/ltdl.c:2230-2246 | A module becomes resident and no count is wrong |
| LtdlHandles.Modules.OpenClose | libltdl/ltdl.c:1922-1984 | A client that opens a module and closes it leaves list and counts as they were, resident modules' counts excepted |
| LtdlHandles.LiveIsRooted | libltdl/ltdl.c:1922-1984 | The open modules are exactly those a client holds, those that are resident, and what these need: none is closed early and none is left over |
| LtdlHandles.Survives | libltdl/ltdl.c:1922-1984 | What was open stays open as long as nobody gives it up |
| LtdlHandles.OpenThenClose | libltdl/ltdl.c:1483-1493 | Closing undoes opening |
| LtdlHandles.Unlinked | libltdl/ltdl.c:1950-1964 | Unlinking a module turns its uses of others into uses to be given back, and every count stays right |
| LtdlHandles.Registered | libltdl/ltdl.c:1483-1493 | A new module in front takes over the uses of its dependencies, which are all behind it |
| LtdlExit.Pass | libltdl/ltdl.c:285-320 | A pass closes exactly the non-resident modules counted no higher than the level, each once, and sees whether there were any non-resident ones |
| LtdlExit.PassCloses | libltdl/ltdl.c:294-316 | Pass l closes a module counted n exactly for n <= l < 2n |
| LtdlExit.PassAges | libltdl/ltdl.c:285-320 | Between passes each module has the count, or is gone, as its first count says |
| LtdlExit.CloseAll | libltdl/ltdl.c:284-321 | Largest count m makes 2m passes, or one if there is nothing to close, and only resident modules are left |
| LtdlExit.Exit | libltdl/ltdl.c:275-321 | Without dependencies shutting down ends after exactly that many passes, leaves only resident modules, and closes a module counted n in the passes n to 2n - 1 and no others |
| Argz.DecodeEncode | libltdl/argz.c:177-208 | Every list of strings comes back from its buffer |
| Argz.EncodeDecode | libltdl/argz.c:177-208 | Every buffer that ends with a zero byte comes back from its list |
| Argz.EncodeShows | libltdl/argz.c:79-128 | Each string is followed by a zero byte |
| Argz.InsertEntry | libltdl/argz.c:141-171 | Inserting bytes at the start of the entry pointed into inserts a string in front of that entry |
| Argz.NextEntry | libltdl/argz.c:177-208 | Stepping goes from each entry to the next and ends behind the last |
| Argz.RoundTrip | libltdl/argz.c:79-128 | Stringifying what was created from a string with some other character gives it without leading delimiters and with one for each run, with the same elements |
| Argz.CreatedEntries | libltdl/argz.c:79-128 | The entries created are the pieces that are not empty, and an empty one for a delimiter at the end |
| Argz.SqueezedSeparated | libltdl/argz.c:103-112 | No delimiter is left in front or behind another |
| Argz.Vector.Append | libltdl/argz.c:48-76 | The bytes come behind those there are |
| Argz.Vector.CreateSep | libltdl/argz.c:79-128 | The buffer holds the squeezed string with zero bytes and one at the end, and the length counts exactly these |
| Argz.Vector.Insert | libltdl/argz.c:131-174 | The entry and its zero byte are inserted at the start of the entry pointed into, or behind the last |
| Argz.Vector.Next | libltdl/argz.c:177-208 | The offset behind the entry's zero byte, or none at the end |
| Argz.Vector.Stringify | libltdl/argz.c:211-225 | Zero bytes between the first and the last byte become the separator |
| LtdlPaths.InsertInOrder | libltdl/ltdl.c:1724-1743 | The vector holds the list with the string in front of the first that is above it, or unchanged if it was there |
| LtdlPaths.StrCmpMeans | libltdl/ltdl.c:1733-1740 | A string compares below another exactly if the other goes on from it, or has the larger character where they first differ |
| LtdlPaths.InOrderMembers | libltdl/ltdl.c:1724-1743 | The new list has exactly the old strings and the new one |
| LtdlPaths.InOrderIncreasing | libltdl/ltdl.c:1724-1743 | A strictly increasing list stays strictly increasing |
| LtdlPaths.InOrderSorts | libltdl/ltdl.c:1724-1743 | From an empty vector any insertions give the list of exactly what was inserted, in the strict order of a dictionary |
| LtdlPaths.CanonicalizePath | libltdl/ltdl.c:574-633 | The loop over the buffer computes the normal form |
| LtdlPaths.CanonSlashes | libltdl/ltdl.c:586-627 | In every output each slash is followed by an ordinary character |
| LtdlPaths.CanonFixed | libltdl/ltdl.c:586-627 | The fixed points are exactly the paths whose slashes stand before ordinary characters and whose separators stand between elements |
| LtdlPaths.CanonTwice | libltdl/ltdl.c:586-627 | Two applications reach a fixed point on every string |
| LtdlPaths.CanonOnce | libltdl/ltdl.c:586-627 | One application does if and only if no element of nothing but slashes stands behind one that is not |
| LtdlPaths.CanonOnceFails | libltdl/ltdl.c:586-627 | A path on which it does not |
| LtdlDirs.CanonJoins | libltdl/ltdl.c:586-627 | When every element has something else than slashes, the normal form is the cleaned elements joined by single separators |
| LtdlDirs.CleanMeans | libltdl/ltdl.c:586-627 | A cleaned element is its names joined by single slashes, behind a slash if there was one in front |
| LtdlDirs.CanonicalJoined | libltdl/ltdl.c:2121-2136 | Joined pieces are in normal form exactly when each of them is |
| LtdlDirs.InsertPlace | libltdl/ltdl.c:2131-2143 | The offset in the path points into the same entry of the vector, and inserting there inserts in the list |
| LtdlDirs.InsertDir | libltdl/ltdl.c:2092-2159 | The list of directories gets the new ones in front of the entry pointed into, or at the end; the path is in normal form exactly when it was and the directory is, and offsets keep their meaning exactly when the separators in the directory stand between elements |

## Left out

- PlainRuns.RunRefines: references to array entries are outside the plain machine: what they do depends on which arrays have been separated, which no reading tells, and an unset that should do nothing changes it (PhpSharing.SharingHides, PhpSharing.ApartReached, PhpSharing.TogetherKeeps, PhpSharing.ApartWrites). For those PhpLinks, PhpStatements.RunIsolates and the lemmas of ZvalReads hold.
- PhpStatements.RunIsolatesSet: reference sets that array entries belong to, which whoever has a copy of the array can write to.
- PhpLinks.StoreHolds: a store into an entry that is a reference to the array itself; for a variable stored into its own array see PlainRuns.AssignArrayExactly.
- PhpProgram.Do: string offsets are not modelled; a statement that uses one counts as not getting through.
- PhpStatements.Fits: what the code makes of freed cells; a statement that uses one stops.
- ZvalRuntime.Runtime.PushAndIndexHt: the engine's counter for the next index is a parameter, above all indices there are, and 0 for a new array.
- ZvalRuntime.Runtime.GetHtEntry: keys are taken as they are; the engine's rules for integer-looking strings and other key types, and the order of entries, are not modelled.
- ZvalRuntime.Runtime.ConvertTo: what a scalar becomes is a parameter; conversion to objects is not modelled.
- Objects, variable variables, operators, function calls and argument passing of the compiled code.
- Reuse of freed addresses: cells are never given an old address.
- GetoptScanner.Getopt.Next: `long_only`, error messages and the store through an option's `flag` are not modelled (the event names the option); the option table is required for an option string with `W;`; characters are not sign-extended.
- Strings are those of C: a zero character inside one is outside the model of getopt and of argz.
- slist_reverse, slist_concat, slist_remove and the other list accessors are simple loops.
- Heapsort.Sort: n < 2, where the code runs on; `ra` as a PHP array with counted cells (see the heap model).
- The other benchmarks.
- LtdlHandles.Modules.Open: which files exist, what they list and which loader takes them are parameters; dependencies must not be circular, where the code would not return; names are compared, not searched for.
- LtdlExit.Exit: with dependencies loaded, where passes may close a module more often than it was opened.
- LtdlDirs.InsertDir: paths with separators at an end or next to each other, for which the offsets do not fit, and directories whose normal form is empty, which the code asserts away.
- Argz.Vector.Stringify: vectors of fewer than two bytes, for which the code's length underflows.
- Allocation failures, error strings, loaders, file access and all of `libltdl/loaders`.
