# Verification model of the native CPS Lua 5.5 machine

A Dafny model of the copy-and-patch Lua 5.5 machine ("Native CPS Frame V2") and of three
companions: the exact integer/float comparisons, the native table iterators, and the learned
64-bit bulk loops. Each stencil is a step on the invocation, the current frame and the guest
heap; a patched hole is a parameter of the step. Pointers are byte addresses, 0 is null, and
integers wrap exactly where the machine's do. `dafny verify dfyconfig.toml` covers all files.

How the modules build on each other:

- `Values`, `Bits`, `Arithmetic`, `Slots`, `GuestHeap`: tags and payload words, numbers as bit
  strings, 64-bit helpers, value memory with the ascending copy loops, the bump region.
- `Frames` gives CALL, TAILCALL, RETURN, VARARG, closures and CLOSE as functions on the
  invocation state. `Arena`, `Upvalues`, `Captures`, `Closing` and `Machine` prove what every
  step and every run keeps; `Transfer`, `Boxes`, `TailCalls` and `Slices` what is handed over,
  what captured variables see and how long surplus arguments last; `ClosureRoom` when CLOSURE
  finds room; `Opcodes` what the opcodes' operands name and what a CALL gets back; `Fragments`
  that the composed fragments equal the one-piece opcodes; `Invocation` is the same state as a
  class with the loops that change it.
- `Tables` and `TableStore` are table storage as a value and as an object; `FieldCache`,
  `ForSetTable` and `Iterators` stand on them. `ForLoops` is the numeric for and its fused forms.
- `Concat` and `StringStore` are CONCAT on byte memory. `Compare` is the comparison helpers on
  binary64 data, `Learning` the learn slots, learners and exact leaves, `Stencils` the same
  in place. `Operators` says what the instructions compute, and `Rounding` judges the ordering
  learners, which convert to binary64. `U64Loops` is the bulk loops and their learner.
  `Witnesses` holds concrete states for the failing inputs.

Each object that the program updates in place (invocation, bump region, table, string heap,
register and slot arrays, learner) is a class or an array whose methods carry the program's
loops and are proved equal to the functions the laws are about.

Where the code does not do what its comments or the language manual say, the model follows the
code and a lemma gives the exact condition:

- TAILCALL copies varargs upward into a slice that may overlap them (`Transfer.TailVarargsIff`,
  `Witnesses.TailOverrunsWitness`).
- VARARG of all arguments tests no capacity: with more surplus than registers behind its target
  it sets top past `value_capacity` and runs into the slice it copies, so that later reads of the
  slice are shifted (`Transfer.VarargKeepsSliceIff`, `Witnesses.VarargOverrunsWitness`).
- A for loop with a unit step over 2^63 or more runs its body once (`ForLoops.ForFaithfulIff`,
  `ForLoops.LongLoopRunsOnce`).
- The exact helpers for mixed `<=`, `<` and `==` misjudge the pair (INT64_MIN, -2^63)
  (`Compare.LeIntFloatExactIff`).
- The ordering opcodes convert the integer of a mixed pair to double, and so take it for equal
  to the float it rounds to (`Rounding.MixedOrderIff`, `Rounding.RoundedDownWitness`,
  `Rounding.RoundedUpWitness`).
- A vacant cached slot reads nil whatever the table holds (`FieldCache.ReadSlotExactIff`).
- The length of a string is stored in 32 bits, and an exit in the middle of a concat chain's
  measures leaves its total behind: a chain is right only for texts below 2^32 bytes and from a
  total that is a multiple of 2^32 (`Concat.ChainRightIff`, `Concat.ExitKeepsTotal`).
- The heap end test is made on a sum that can wrap (`GuestHeap.BumpContainedIff`).
- The driver's root frame delivers its results into its own registers, and RETURN delivers
  before it closes cells, so a captured register of the root in that window closes on a result
  (`Boxes.LeavingBox`, `Witnesses.RootReturnWitness`).
- The single-tag learner cannot tell a first nil from no observation
  (`Learning.KeyTagSettledIff`).
- `next` yields an occupied field whose value was set to nil, which the language manual leaves
  out (`Iterators.NextFaithfulIff`, `Iterators.NilFieldWitness`), and reads outside the array for
  keys whose successor is 0 in 32 bits (`Iterators.WildIff`, `Iterators.MinusOneWild`).
- Array growth doubles in 32 bits and never returns when no doubling reaches the index; field
  growth from 2^31 entries on wraps to a smaller block and copies past it
  (`Tables.GrowArrayEndsIff`, `Tables.SetUnboundedIff`, `Tables.EndlessGrowth`).

The one-argument call leaf differs from CALL only for a callee without value slots
(`Fragments.CallOneExact`), which the driver never builds.

Nil cells keep the payload that was there before, so guest values are compared up to the payload
of nil where a nil is written by tag alone.

## Model

| member | source | states |
|---|---|---|
| `GuestHeap.BumpExact` | experiments/copy_patch_cps/lua55_trace/opcode_v2_core_stencils.c:1656-1665 | a request whose end does not wrap is granted exactly when the aligned block fits; the block is 16-aligned and lies between the old and the new cursor; region and end never change |
| `GuestHeap.BumpAnswers` | experiments/copy_patch_cps/lua55_trace/opcode_v2_core_stencils.c:1656-1665 | for every region and request: address 0 exactly when the region is missing or the end of the aligned block, in 64 bits, is past its end; otherwise the aligned cursor, with the cursor moved behind the block |
| `GuestHeap.BumpContainedIff` | experiments/copy_patch_cps/lua55_trace/opcode_v2_core_stencils.c:1661-1663 | a granted block lies inside the region if and only if the end computation did not wrap |
| `GuestHeap.BumpWraps` | experiments/copy_patch_cps/lua55_trace/opcode_v2_core_stencils.c:1661-1663 | a concrete wrapping request that is granted and moves the cursor backwards |
| `GuestHeap.BuildOne` | experiments/copy_patch_cps/lua55_trace/opcode_v2_core_stencils.c:1666-1695 | building one object leaves every byte below the cursor alone; it fails exactly when the aligned block does not fit, and then changes nothing |
| `GuestHeap.BuildAllKeeps` | experiments/copy_patch_cps/lua55_trace/opcode_v2_core_stencils.c:1656-1695 | over any sequence of constructions, bytes below the starting cursor stay, and every object built is aligned, inside the region and still holds its bytes at the end |
| `GuestHeap.BuildAllDisjoint` | experiments/copy_patch_cps/lua55_trace/opcode_v2_core_stencils.c:1656-1695 | two objects of one sequence never share a byte |
| `GuestHeap.GuestRegion.Take` | experiments/copy_patch_cps/lua55_trace/opcode_v2_core_stencils.c:1656-1665 | the in-place bump is the bump function on region, end and cursor |
| `Values.CodesDistinct` | experiments/copy_patch_cps/lua55_trace/opcode_value_tags.h:12-20 | the nine tag codes tell the tags apart |
| `Slots.CopyExactIff` | experiments/copy_patch_cps/lua55_trace/opcode_v2_core_stencils.c:1178-1183 | the ascending slot copy delivers every original value, for every memory content, if and only if the destination does not start strictly inside the source |
| `Arena.LiveFramesDisjoint` | experiments/copy_patch_cps/lua55_trace/opcode_v2_core_stencils.c:1029-1045 | live frames occupy pairwise disjoint 16-aligned regions inside the arena |
| `Arena.CallNativeArena` | experiments/copy_patch_cps/lua55_trace/opcode_v2_core_stencils.c:1014-1081 | CALL keeps the arena invariant and pushes exactly one frame at frame_next, or exits with the chain unchanged |
| `Arena.TailNativeArena` | experiments/copy_patch_cps/lua55_trace/opcode_v2_core_stencils.c:1142-1197 | TAILCALL keeps the arena invariant with the same chain of frame addresses |
| `Arena.ReturnArena` | experiments/copy_patch_cps/lua55_trace/opcode_v2_core_stencils.c:1265-1313 | RETURN keeps the arena invariant and drops exactly the current frame, or exits with the chain unchanged |
| `Upvalues.OneCellPerRegister` | experiments/copy_patch_cps/lua55_trace/opcode_v2_core_stencils.c:1697-1719 | two open cells that stand for the same register are the same cell |
| `Upvalues.OpenCellIsLive` | experiments/copy_patch_cps/lua55_trace/opcode_v2_core_stencils.c:1697-1719 | an open cell points at a register of a frame on the live chain, never into a popped or reused frame |
| `Upvalues.OpenCellsExact` | experiments/copy_patch_cps/lua55_trace/opcode_value_v2.h:341-354 | the open list of a frame is acyclic and the walk along next_open visits exactly its cells |
| `Upvalues.CloseKeepsViews` | experiments/copy_patch_cps/lua55_trace/opcode_value_v2.h:341-354 | closing a list of cells changes the value seen through no cell: each takes its register's value, gives up slot and link, and is one generation later; the others stay |
| `Upvalues.PushInv` | experiments/copy_patch_cps/lua55_trace/opcode_v2_core_stencils.c:1043-1081 | pushing a frame keeps the open lists of all frames below |
| `Upvalues.ReplaceInv` | experiments/copy_patch_cps/lua55_trace/opcode_v2_core_stencils.c:1171-1197 | reusing the current frame after closing its cells keeps the machine invariant |
| `Upvalues.PopInv` | experiments/copy_patch_cps/lua55_trace/opcode_v2_core_stencils.c:1301-1309 | closing and popping the current frame keeps the machine invariant |
| `Captures.CaptureInv` | experiments/copy_patch_cps/lua55_trace/opcode_v2_core_stencils.c:1697-1719 | capturing a register or an enclosing upvalue keeps the invariant, yields a cell for exactly that variable, and leaves every existing cell, closure and value standing |
| `Captures.CapturesInv` | experiments/copy_patch_cps/lua55_trace/opcode_v2_core_stencils.c:1725-1804 | the same for a whole capture vector, also when an allocation fails in the middle |
| `Closing.CloseFromRel` | experiments/copy_patch_cps/lua55_trace/opcode_v2_core_stencils.c:2627-2645 | CLOSE detaches exactly the current frame's cells at or above the base, each with the final value of its register, and relinks the others in order |
| `Closing.CloseFromInv` | experiments/copy_patch_cps/lua55_trace/opcode_v2_core_stencils.c:2627-2645 | CLOSE keeps the machine invariant |
| `Closing.CloseFromViews` | experiments/copy_patch_cps/lua55_trace/opcode_v2_core_stencils.c:2627-2645 | CLOSE changes the value seen through no cell: those at or above its register are let go, the others keep slot, state and generation |
| `Machine.LaunchInv` | experiments/copy_patch_cps/lua55_trace/cps_invocation_v2.lua:1450-1476 | the state with the root frame the driver builds satisfies the machine invariant |
| `Machine.AlwaysReady` | experiments/copy_patch_cps/lua55_trace/cps_invocation_v2.lua:1440-1475 | in every state of a run the running stencil finds its frame, sink and descriptors in place |
| `Machine.EnabledIff` | experiments/copy_patch_cps/lua55_trace/opcode_v2_core_stencils.c:470-493 | in every state of a run an operation is executed exactly when its operands name registers and upvalues of the running function |
| `Machine.StepInv` | experiments/copy_patch_cps/lua55_trace/opcode_v2_core_stencils.c:972-1313 | every register write, upvalue access, closure, scope close, vararg, call, tail call and return keeps the machine invariant and moves the caller chain as stated |
| `Machine.RunInv` | experiments/copy_patch_cps/lua55_trace/opcode_v2_core_stencils.c:972-1313 | every state of every run satisfies the machine invariant: disjoint frames laid end to end with frame_next behind the current one, acyclic open lists, one open cell per register, no open cell outside a live frame |
| `Machine.LiveExact` | experiments/copy_patch_cps/lua55_trace/opcode_v2_core_stencils.c:1059 | the chain the invariant speaks of is the one read off the caller pointers |
| `Machine.ClosureShape` | experiments/copy_patch_cps/lua55_trace/opcode_v2_core_stencils.c:1681-1804 | CLOSURE keeps every existing cell, changes no header but the open lists and no value but the target register, and that only when it continues |
| `Machine.ClosureMade` | experiments/copy_patch_cps/lua55_trace/opcode_v2_core_stencils.c:1681-1804 | CLOSURE exits with HEAP_OVERFLOW and no new closure, or leaves in the target register a reference to a fresh closure of the prototype whose cells stand for its captures in order |
| `ClosureRoom.CaptureRoom` | experiments/copy_patch_cps/lua55_trace/opcode_v2_core_stencils.c:1697-1719 | a capture creates a cell exactly when its register has none, linked in front and of generation 1, and fails exactly when 40 bytes are denied |
| `ClosureRoom.ClosureRoomIff` | experiments/copy_patch_cps/lua55_trace/opcode_v2_core_stencils.c:1725-1753 | CLOSURE goes on exactly when its own block and the cells of its captured registers without one, taken in order, are all granted, with the cursor moved by just that; otherwise it publishes HEAP_OVERFLOW |
| `Machine.ReturnPops` | experiments/copy_patch_cps/lua55_trace/opcode_v2_core_stencils.c:1301-1312 | RETURN sets frame_next to the start of the leaving frame and current_frame to its caller |
| `Machine.MatchedReturn` | experiments/copy_patch_cps/lua55_trace/opcode_v2_core_stencils.c:1029-1081 | whatever nested calls and tail calls lie between a CALL and its RETURN, the RETURN restores frame_next, current_frame and the live chain to their values before the CALL |
| `Opcodes.ReturnStep` | experiments/copy_patch_cps/lua55_trace/opcode_v2_core_stencils.c:1265-1310 | RETURN A B: B - 1 values, or for B = 0 those from A up to top, arrive at the sink in order, nil up to a fixed count; the receiver's top is right behind them and control goes through the link; without room only the outcome changes |
| `Opcodes.CallStep` | experiments/copy_patch_cps/lua55_trace/opcode_v2_core_stencils.c:1004-1082 | CALL A B C of a native closure: B - 1 arguments, or for B = 0 those up to top, become parameters and slice of a new frame at frame_next whose results go to register A on, C - 1 of them; both overflow exits exactly |
| `Opcodes.TailStep` | experiments/copy_patch_cps/lua55_trace/opcode_v2_core_stencils.c:1132-1197 | TAILCALL A B: the same arguments in the frame's own place, with caller, link and sink kept, and the same exits counted from the frame's start |
| `Opcodes.OtherCallee` | experiments/copy_patch_cps/lua55_trace/opcode_v2_core_stencils.c:1084-1099 | a builtin is handed to the host with the operands, anything else is rejected, and nothing but the outcome changes |
| `Opcodes.VarargStep` | experiments/copy_patch_cps/lua55_trace/opcode_v2_core_stencils.c:2413-2434 | VARARG fills exactly its registers with the surplus and nil, and sets top right behind them |
| `Opcodes.MatchedResults` | experiments/copy_patch_cps/lua55_trace/opcode_v2_core_stencils.c:1265-1310 | after a CALL, any run that stays above it and the matching RETURN, the results are in the caller's registers from A on, nil for missing ones, top is right behind, and the caller goes on where CALL said |
| `Transfer.CallEntry` | experiments/copy_patch_cps/lua55_trace/opcode_v2_core_stencils.c:1014-1081 | CALL enters the callee with argument i or nil in each parameter, exactly the surplus in the vararg slice, its own upvalues, top and limits |
| `Transfer.TailEntry` | experiments/copy_patch_cps/lua55_trace/opcode_v2_core_stencils.c:1142-1197 | TAILCALL enters the callee with the very entry CALL would give it unless the slice overruns; a fixed-arity callee has no slice |
| `Transfer.TailOverrun` | experiments/copy_patch_cps/lua55_trace/opcode_v2_core_stencils.c:1178-1183 | when the slice overruns its source, the entry at the distance between the two receives the first surplus argument instead of its own |
| `Transfer.TailVarargsIff` | experiments/copy_patch_cps/lua55_trace/opcode_v2_core_stencils.c:1178-1183 | TAILCALL hands over the surplus correctly for every register content if and only if the slice of the callee does not start strictly inside the surplus arguments |
| `Transfer.ReturnDelivers` | experiments/copy_patch_cps/lua55_trace/opcode_v2_core_stencils.c:1276-1300 | RETURN writes nothing outside the sink window, and exits with VALUE_OVERFLOW exactly when the window does not fit, changing only the outcome |
| `Transfer.ReturnValues` | experiments/copy_patch_cps/lua55_trace/opcode_v2_core_stencils.c:1290-1299 | result i arrives unchanged at position i of the sink, and wanted results that are missing arrive as nil |
| `Transfer.VarargReads` | experiments/copy_patch_cps/lua55_trace/opcode_v2_core_stencils.c:2413-2434 | VARARG leaves exactly the surplus arguments from its target on, nil-padded to a fixed count, also where it runs past the registers |
| `Transfer.VarargSliceAfter` | experiments/copy_patch_cps/lua55_trace/opcode_v2_core_stencils.c:2422-2432 | what every GETVARG reads after a VARARG: the same, or, when the copy of all overran, the slice moved down by the distance of target and slice |
| `Transfer.VarargKeepsSliceIff` | experiments/copy_patch_cps/lua55_trace/opcode_v2_core_stencils.c:6046-6068 | GETVARG keeps reading the surplus after a VARARG, for every memory content, if and only if the VARARG does not run from below into the slice |
| `Slices.StepSlice` | experiments/copy_patch_cps/lua55_trace/opcode_v2_core_stencils.c:972-1313 | every step keeps the vararg slice of a frame that stays live, unless it is that frame's own TAILCALL or an overrunning VARARG |
| `Slices.RunKeepsSlice` | experiments/copy_patch_cps/lua55_trace/opcode_v2_core_stencils.c:2436-2458 | the slice of a live frame survives every run until its own TAILCALL or an overrunning VARARG |
| `Slices.SurplusReadBack` | experiments/copy_patch_cps/lua55_trace/opcode_v2_core_stencils.c:5829-5844 | after a CALL and any such run in or above the callee, GETVARG k reads surplus argument k of the CALL, and nil beyond |
| `Boxes.SetBox` | experiments/copy_patch_cps/lua55_trace/opcode_v2_core_stencils.c:485-493 | SETUPVAL through a cell changes the value seen through that cell and through no other |
| `Boxes.CallBoxes` | experiments/copy_patch_cps/lua55_trace/opcode_v2_core_stencils.c:1043-1081 | CALL changes the value seen through no cell |
| `Boxes.TailBoxes` | experiments/copy_patch_cps/lua55_trace/opcode_v2_core_stencils.c:1171-1197 | TAILCALL over a frame changes the value seen through no cell, of that frame or any other |
| `Boxes.ReturnBoxes` | experiments/copy_patch_cps/lua55_trace/opcode_v2_core_stencils.c:1290-1301 | RETURN changes the value seen through a cell only where its register lies in the sink window |
| `Boxes.LeavingBox` | experiments/copy_patch_cps/lua55_trace/opcode_v2_core_stencils.c:1290-1301 | a variable of the returning frame keeps its value in its cell, unless the frame delivers into its own window (the root): there the cell of register i closes on result i, or on nil past the results |
| `Boxes.StepBoxLaw` | experiments/copy_patch_cps/lua55_trace/opcode_v2_core_stencils.c:476-493 | every operation: a cell's value changes only by an assignment through that cell or to its register, and then to the value the operation assigns: the written one, what the read cell showed, the new closure, the surplus argument, or the result or nil |
| `Boxes.RunKeepsBox` | experiments/copy_patch_cps/lua55_trace/opcode_v2_core_stencils.c:476-493 | a captured variable that no step of a run assigns keeps its value through the run, across scope ends, tail calls over its frame and the return of its function |
| `Boxes.ReadBox` | experiments/copy_patch_cps/lua55_trace/opcode_v2_core_stencils.c:476-484 | GETUPVAL puts into its register what the running closure's cell shows, and changes nothing else |
| `Boxes.SetThenGet` | experiments/copy_patch_cps/lua55_trace/opcode_v2_core_stencils.c:476-493 | what SETUPVAL assigns through one closure is what GETUPVAL reads through any closure with the same cell, after any run that does not assign the variable |
| `Boxes.WriteThenGet` | experiments/copy_patch_cps/lua55_trace/opcode_v2_core_stencils.c:476-484 | the same for an assignment to the captured register itself |
| `TailCalls.StepLink` | experiments/copy_patch_cps/lua55_trace/opcode_v2_core_stencils.c:1184-1196 | a step other than CALL and RETURN keeps caller, return link, sink and register base of the current frame |
| `TailCalls.TailChain` | experiments/copy_patch_cps/lua55_trace/opcode_v2_core_stencils.c:1142-1197 | any unbounded chain of tail calls keeps caller chain, return link and sink, and frame_next stays exactly one frame of the latest callee above the frame start |
| `Fragments.GuardExact` | experiments/copy_patch_cps/lua55_trace/opcode_v2_core_stencils.c:4885-4905 | the callee guard passes exactly on native closures with an entry and the selected vararg flag, and reports the tag, kind or flag it expected and found |
| `Fragments.SlotsThenNil` | experiments/copy_patch_cps/lua55_trace/opcode_v2_core_stencils.c:5198-5224 | one store per argument followed by nil padding is the argument placement of the one-piece opcode |
| `Fragments.CallFragmentsExact` | experiments/copy_patch_cps/lua55_trace/opcode_v2_core_stencils.c:5062-5126 | prepare; slot 0..n-1; finish reach the same callee frame, memory and invocation as CALL, or the same overflow, for every argument and parameter count |
| `Fragments.ComposedCallExact` | experiments/copy_patch_cps/lua55_trace/opcode_v2_core_stencils.c:5062-5224 | behind its guard the composed CALL is the learner CALL; when the guard fails nothing but the outcome changes |
| `Fragments.CallOneExact` | experiments/copy_patch_cps/lua55_trace/opcode_v2_core_stencils.c:5132-5194 | the one-argument leaf equals CALL with one argument if and only if the callee has value slots, or the arguments or the frame do not fit |
| `Fragments.ComposedTailExact` | experiments/copy_patch_cps/lua55_trace/opcode_v2_core_stencils.c:5362-5445 | behind its guard the composed TAILCALL is the learner TAILCALL, overlapping copies included; when the guard fails nothing but the outcome changes |
| `Fragments.TailFragmentsExact` | experiments/copy_patch_cps/lua55_trace/opcode_v2_core_stencils.c:5362-5445 | prepare; slot 0..n-1; finish of TAILCALL equal the one-piece TAILCALL |
| `Fragments.RetFragmentsExact` | experiments/copy_patch_cps/lua55_trace/opcode_v2_core_stencils.c:5928-6042 | begin; slot 0..n-1; finish equal the one-piece RETURN for every result count and sink width |
| `Fragments.RetOneExact` | experiments/copy_patch_cps/lua55_trace/opcode_v2_core_stencils.c:5954-6005 | the one-result leaf equals RETURN of one value |
| `InvocationRecord.Invocation.CopyValues` | experiments/copy_patch_cps/lua55_trace/opcode_v2_core_stencils.c:1070-1071 | the ascending copy loop on value memory computes the slot copy, overlap included |
| `InvocationRecord.Invocation.ClearTags` | experiments/copy_patch_cps/lua55_trace/opcode_v2_core_stencils.c:1072-1073 | the padding loop sets the tags of exactly its slots and keeps their payloads |
| `InvocationRecord.Invocation.PlaceArguments` | experiments/copy_patch_cps/lua55_trace/opcode_v2_core_stencils.c:1069-1079 | the three loops place parameters, padding and vararg slice |
| `InvocationRecord.Invocation.CloseOpenUpvalues` | experiments/copy_patch_cps/lua55_trace/opcode_value_v2.h:341-354 | the list walk closes exactly the cells of the frame's open list and empties it |
| `InvocationRecord.Invocation.FindOpenCell` | experiments/copy_patch_cps/lua55_trace/opcode_v2_core_stencils.c:1702-1704 | the list search returns the open cell of the slot, or none |
| `InvocationRecord.Invocation.SetCell` | experiments/copy_patch_cps/lua55_trace/opcode_v2_core_stencils.c:1697-1719 | finds or creates the cell of a capture and links a new one in front |
| `InvocationRecord.Invocation.CloseScope` | experiments/copy_patch_cps/lua55_trace/opcode_v2_core_stencils.c:2627-2645 | the pointer-to-pointer walk unlinks and closes the cells at or above the base and keeps the others linked in order |
| `InvocationRecord.Invocation.DeliverResults` | experiments/copy_patch_cps/lua55_trace/opcode_v2_core_stencils.c:1290-1299 | copies results through the sink, pads with nil and sets the receiver's top |
| `InvocationRecord.Invocation.ReturnValues` | experiments/copy_patch_cps/lua55_trace/opcode_v2_core_stencils.c:1265-1313 | RETURN in place: overflow, delivery, closing, pop and jump |
| `InvocationRecord.Invocation.ReadVarargs` | experiments/copy_patch_cps/lua55_trace/opcode_v2_core_stencils.c:2413-2434 | VARARG in place |
| `InvocationRecord.Invocation.LeaveFrame` | experiments/copy_patch_cps/lua55_trace/opcode_v2_core_stencils.c:1301-1312 | closing and popping in place |
| `InvocationRecord.Invocation.CallClosure` | experiments/copy_patch_cps/lua55_trace/opcode_v2_core_stencils.c:1014-1081 | CALL of a native closure in place |
| `InvocationRecord.Invocation.TailCallClosure` | experiments/copy_patch_cps/lua55_trace/opcode_v2_core_stencils.c:1142-1197 | TAILCALL of a native closure in place |
| `ForLoops.ForExits` | experiments/copy_patch_cps/lua55_trace/opcode_v2_core_stencils.c:1372-1459 | which way FORPREP and FORLOOP go, and that they change nothing unless the body is to run |
| `ForLoops.ForPrepLeafExact` | experiments/copy_patch_cps/lua55_trace/opcode_v2_core_stencils.c:4214-4250 | each integer FORPREP leaf is the learner's integer branch restricted to its sign, and a mismatch with untouched registers otherwise |
| `ForLoops.WithinIff` | experiments/copy_patch_cps/lua55_trace/opcode_v2_core_stencils.c:1400-1406 | the indices init + k * step not past the limit are exactly those with k up to the quotient |
| `ForLoops.QuotientLarge` | experiments/copy_patch_cps/lua55_trace/opcode_v2_core_stencils.c:1400-1406 | the quotient exceeds the signed count exactly for unit steps over a distance of 2^63 or more |
| `ForLoops.CycleIndices` | experiments/copy_patch_cps/lua55_trace/opcode_v2_core_stencils.c:1452-1459 | from a count n the cycle visits idx, idx + step, ..., idx + n * step in order without wrap-around and ends with count 0 |
| `ForLoops.ForExact` | experiments/copy_patch_cps/lua55_trace/opcode_v2_core_stencils.c:1391-1412 | a loop whose quotient fits runs its body with exactly the indices not past the limit, in order; an empty loop leaves all cells; otherwise the body runs once |
| `ForLoops.ForFaithfulIff` | experiments/copy_patch_cps/lua55_trace/opcode_v2_core_stencils.c:1391-1412 | the loop runs the indices the language asks for if and only if it is not a unit step over 2^63 or more |
| `ForLoops.LongLoopRunsOnce` | experiments/copy_patch_cps/lua55_trace/opcode_v2_core_stencils.c:1406 | the loop from INT64_MIN to 0 by 1 runs its body once |
| `ForLoops.FusedForAddi` | experiments/copy_patch_cps/lua55_trace/opcode_v2_core_stencils.c:4530-4575 | the fused ADDI leaf completes exactly behind its guards, and then leaves the registers of FORPREP, (ADDI, FORLOOP)*; otherwise it changes nothing |
| `ForLoops.FusedForAdd` | experiments/copy_patch_cps/lua55_trace/opcode_v2_core_stencils.c:4626-4661 | the same for the fused ADD leaf, which adds the loop index |
| `ForLoops.UnfusedSpin` | experiments/copy_patch_cps/lua55_trace/opcode_v2_core_stencils.c:4302-4320 | FORPREP, (add, FORLOOP)* on cells ends as the cycle on locals |
| `ForLoops.FusedTotals` | experiments/copy_patch_cps/lua55_trace/opcode_v2_core_stencils.c:4530-4575 | the loop ends with count 0, the step and the last index in its control cells, and an integer accumulator at start + trips * imm, or start + the sum of the indices, modulo 2^64, whenever the quotient is below 2^63 |
| `ForLoops.IndexSumGauss` | experiments/copy_patch_cps/lua55_trace/opcode_v2_core_stencils.c:4626-4661 | that sum of indices in closed form |
| `Tables.NewCapacityFits` | experiments/copy_patch_cps/lua55_trace/opcode_v2_core_stencils.c:2304-2306 | the 32-bit doubling ends at a capacity that covers every request up to 2^31 and never shrinks |
| `Tables.GrowArrayEnds` | experiments/copy_patch_cps/lua55_trace/opcode_v2_core_stencils.c:2300-2320 | growing to an index of at most 2^31 succeeds or finds the heap full; it never loops |
| `Tables.NewCapacityIff` | experiments/copy_patch_cps/lua55_trace/opcode_v2_core_stencils.c:2304-2306 | the doubling loop ends exactly when some 32-bit doubling reaches the request |
| `Tables.NewCapacityFirst` | experiments/copy_patch_cps/lua55_trace/opcode_v2_core_stencils.c:2304-2306 | the doubling stops at the first capacity that reaches |
| `Tables.GrowArrayEndsIff` | experiments/copy_patch_cps/lua55_trace/opcode_v2_core_stencils.c:2300-2320 | array growth ends, grown or refused, if and only if start * 2^j mod 2^32 reaches the index for some j; else it never returns |
| `Tables.WrappedCapacity` | experiments/copy_patch_cps/lua55_trace/opcode_v2_core_stencils.c:2304-2306 | a capacity that wrapped can still reach the index, so testing unwrapped doublings only would not be exact |
| `Tables.GrowArrayKeeps` | experiments/copy_patch_cps/lua55_trace/opcode_v2_core_stencils.c:2300-2320 | array growth changes no read, never shrinks, covers the needed index and raises the generation by one |
| `Tables.GrowFieldsKeeps` | experiments/copy_patch_cps/lua55_trace/opcode_v2_core_stencils.c:1965-1987 | field growth changes no read, keeps every entry in place and raises the generation by one |
| `Tables.FindUnique` | experiments/copy_patch_cps/lua55_trace/opcode_v2_core_stencils.c:1949-1953 | with distinct keys the scan finds the one field that has the key |
| `Tables.ClaimKeeps` | experiments/copy_patch_cps/lua55_trace/opcode_v2_core_stencils.c:1955-1963 | claiming the first vacancy keeps the prefix and distinct keys; no key reads differently |
| `Tables.FindOrCreateKeeps` | experiments/copy_patch_cps/lua55_trace/opcode_v2_core_stencils.c:1943-1988 | find-or-create changes no read, keeps the storage invariant, and the slot is the key's; the generation rises exactly with the layout |
| `Tables.FullThenVacant` | experiments/copy_patch_cps/lua55_trace/opcode_v2_core_stencils.c:1947-1988 | after one growth of a full field part the first new entry is vacant, so the create loop never grows twice |
| `Tables.SetIsUpdate` | experiments/copy_patch_cps/lua55_trace/opcode_v2_core_stencils.c:2161-2229 | a write that succeeds updates exactly the named key; capacities never shrink and the generation rises exactly when the layout changes |
| `Tables.SetRefusedIff` | experiments/copy_patch_cps/lua55_trace/opcode_v2_core_stencils.c:2161-2229 | a write is refused exactly for an index below 1, and where the region has no room: for the array part at the first doubling that reaches the index, 16 bytes a value, or for twice the entries of a full field part, 32 bytes each |
| `Tables.SetGrows` | experiments/copy_patch_cps/lua55_trace/opcode_v2_core_stencils.c:2161-2229 | a stored write moves cursor and capacities exactly by the growth it takes; a write that takes none leaves them |
| `Tables.SetInScope` | experiments/copy_patch_cps/lua55_trace/opcode_v2_core_stencils.c:2161-2229 | indices up to 2^31 and field parts below 2^31 never leave the 32-bit capacities |
| `Tables.SetUnboundedIff` | experiments/copy_patch_cps/lua55_trace/opcode_v2_core_stencils.c:2161-2229 | a write leaves 32 bits exactly for an index no doubling reaches (it never returns), or a new field in a full part of 2^31 entries or more whose wrapped block is granted (it copies past the block) |
| `Tables.EndlessGrowth` | experiments/copy_patch_cps/lua55_trace/opcode_v2_core_stencils.c:2304-2306 | writing index 2^31 + 1 of a fresh table never returns |
| `Tables.LostIff` | experiments/copy_patch_cps/lua55_trace/opcode_v2_core_stencils.c:2161-2229 | an access ends a run exactly when it is such a write |
| `Tables.NewTableIsEmpty` | experiments/copy_patch_cps/lua55_trace/opcode_v2_core_stencils.c:2044-2077 | a new table represents the empty map, with the capacities asked for and at least one entry in each part |
| `Tables.AccessAllIsMap` | experiments/copy_patch_cps/lua55_trace/opcode_v2_core_stencils.c:1943-2320 | every sequence of reads and writes, with all creations and growths, observes exactly what a finite map with nil default would; a write fails exactly for an index below 1 or without room, and the run ends at the first write that leaves 32 bits |
| `TableStore.GuestTable.Scan` | experiments/copy_patch_cps/lua55_trace/opcode_v2_core_stencils.c:1948-1954 | one loop finds the key's field, or the first vacancy |
| `TableStore.GuestTable.GrowFieldPart` | experiments/copy_patch_cps/lua55_trace/opcode_v2_core_stencils.c:1965-1987 | field growth in place |
| `TableStore.GuestTable.FindOrCreateField` | experiments/copy_patch_cps/lua55_trace/opcode_v2_core_stencils.c:1943-1988 | the create loop in place ends after at most one growth with the find-or-create result |
| `TableStore.GuestTable.GrowArrayPart` | experiments/copy_patch_cps/lua55_trace/opcode_v2_core_stencils.c:2300-2320 | array growth in place, doubling loop included |
| `TableStore.GuestTable.SetValue` | experiments/copy_patch_cps/lua55_trace/opcode_v2_core_stencils.c:2161-2229 | SETI, SETFIELD and SETTABLE in place |
| `TableStore.GuestTable.GetValue` | experiments/copy_patch_cps/lua55_trace/opcode_v2_core_stencils.c:2086-2155 | GETI, GETFIELD and GETTABLE |
| `FieldCache.CachedCell` | experiments/copy_patch_cps/lua55_trace/opcode_v2_core_stencils.c:3061-3096 | a guarded occupied slot is the cell the scan finds |
| `FieldCache.ReadSlotExactIff` | experiments/copy_patch_cps/lua55_trace/opcode_v2_core_stencils.c:3081-3096 | a guarded slot read agrees with the scan if and only if the slot is occupied, or the scan misses the key or finds nil |
| `FieldCache.VacantReadWrong` | experiments/copy_patch_cps/lua55_trace/opcode_v2_core_stencils.c:3092 | a concrete vacant-slot read that returns nil for a key the table holds |
| `FieldCache.SetPairExact` | experiments/copy_patch_cps/lua55_trace/opcode_v2_core_stencils.c:3435-3509 | existing-then-create either is the map update of the key, or mismatches with every key reading as before; it never grows |
| `FieldCache.SetPairStoresIff` | experiments/copy_patch_cps/lua55_trace/opcode_v2_core_stencils.c:6118-6157 | the pair stores exactly when the guards hold and the slot is the key's, or the first vacancy for an absent key |
| `FieldCache.LearnedSlotStaysRight` | experiments/copy_patch_cps/lua55_trace/opcode_v2_core_stencils.c:1995-2023 | over every later sequence of accesses (up to a write that leaves 32 bits) a slot learned as found mismatches exactly when the field part was resized, and otherwise reads what the scan reads |
| `FieldCache.StoreCached` | experiments/copy_patch_cps/lua55_trace/opcode_v2_core_stencils.c:3435-3509 | the pair in place |
| `ForSetTable.FillExact` | experiments/copy_patch_cps/lua55_trace/opcode_v2_core_stencils.c:4737-4748 | the cycle writes the constant at its first m indices and nowhere else, across any growths: all indices when it completes, those before the refused one when it stops |
| `ForSetTable.SetCycleFill` | experiments/copy_patch_cps/lua55_trace/opcode_v2_core_stencils.c:4735-4751 | the cycle on locals and (SETTABLE, FORLOOP)* on control cells store the same and end with the same cells |
| `ForSetTable.SetStatementExact` | experiments/copy_patch_cps/lua55_trace/opcode_v2_core_stencils.c:4703-4755 | on completion exactly the keys init + k * step not past the limit hold the constant, every other key reads as before, and the control cells are those of FORPREP and FORLOOP |
| `ForSetTable.SetStatementRefused` | experiments/copy_patch_cps/lua55_trace/opcode_v2_core_stencils.c:4739-4744 | on refusal exactly the earlier indices were written, and the refused one is below 1 or found the heap full |
| `ForSetTable.SetStatementEnds` | experiments/copy_patch_cps/lua55_trace/opcode_v2_core_stencils.c:4737-4748 | a loop with both ends at or below 2^31 always ends |
| `ForSetTable.FusedForSetTable` | experiments/copy_patch_cps/lua55_trace/opcode_v2_core_stencils.c:4703-4755 | the leaf in place: mismatch with nothing changed exactly when a guard fails, else the unfused statement; a refused loop keeps its control cells |
| `Iterators.NextAfter` | experiments/copy_patch_cps/lua55_trace/opcode_iter_stencils.c:113-159 | one `next` yields the head of what is left after its key, and its result key leaves the tail |
| `Iterators.NextTraverses` | experiments/copy_patch_cps/lua55_trace/opcode_iter_stencils.c:113-159 | `next` from nil yields each non-nil array index ascending, then each occupied field once in slot order, then ends |
| `Iterators.WalkListed` | experiments/copy_patch_cps/lua55_trace/opcode_iter_stencils.c:48-64 | the pairs `next` yields are those of all live positions (non-nil array slots, then occupied fields) in ascending order, once each; a field key refers to its string and is tagged long exactly when that object is |
| `Iterators.NextFirst` | experiments/copy_patch_cps/lua55_trace/opcode_iter_stencils.c:113-159 | one `next` yields the pair of the first live position behind its key, or the end when there is none |
| `Iterators.TraverseComplete` | experiments/copy_patch_cps/lua55_trace/opcode_iter_stencils.c:48-64 | every pair yielded is a key with its value, and every key that reads non-nil is yielded |
| `Iterators.NextFaithfulIff` | experiments/copy_patch_cps/lua55_trace/opcode_iter_stencils.c:48-64 | `next` yields exactly the keys that read non-nil if and only if no occupied field holds nil |
| `Iterators.NilFieldWitness` | experiments/copy_patch_cps/lua55_trace/opcode_iter_stencils.c:48-64 | a table whose one field was set to nil, and is yielded with its nil |
| `Iterators.WildIff` | experiments/copy_patch_cps/lua55_trace/opcode_iter_stencils.c:126-137 | `next` reads outside the array exactly for an integer key whose successor is 0 in 32 bits, or when nothing is left in an array of 2^32 - 1 slots |
| `Iterators.MinusOneWild` | experiments/copy_patch_cps/lua55_trace/opcode_iter_stencils.c:135-137 | the key -1 does so for every table |
| `Iterators.IpairsFrom` | experiments/copy_patch_cps/lua55_trace/opcode_iter_stencils.c:185-206 | ipairs from inside the leading run yields the rest of the run |
| `Iterators.GuardsIff` | experiments/copy_patch_cps/lua55_trace/opcode_iter_stencils.c:113-206 | `next` fails its guard exactly for keys that are neither nil, integer nor string, ipairs exactly for keys that are no integer |
| `Iterators.IpairsReads` | experiments/copy_patch_cps/lua55_trace/opcode_iter_stencils.c:185-206 | one ipairs step from any index yields the next index with the value the table has there, or the end where it has none |
| `Iterators.IpairsIsLength` | experiments/copy_patch_cps/lua55_trace/opcode_iter_stencils.c:185-206 | ipairs from 0 yields exactly 1 .. table_len with their values |
| `Iterators.TableLen` | experiments/copy_patch_cps/lua55_trace/opcode_unary_stencils.c:69-79 | the scan loop returns the length of the leading run of non-nil values |
| `Iterators.NextIter` | experiments/copy_patch_cps/lua55_trace/opcode_iter_stencils.c:113-159 | the `next` stencil in place, for every key: R2/R3 for a pair, R2 := nil at the end, nothing on a failed guard, and an exit of its own where the code reads outside the array |
| `Iterators.IpairsIter` | experiments/copy_patch_cps/lua55_trace/opcode_iter_stencils.c:185-206 | the ipairs stencil in place |
| `Concat.AllocateExact` | experiments/copy_patch_cps/lua55_trace/opcode_v2_core_stencils.c:5739-5770 | the block of a new string lies between the old and the new cursor, on no existing header or bytes |
| `Concat.AllocateFullIff` | experiments/copy_patch_cps/lua55_trace/opcode_v2_core_stencils.c:5739-5770 | there is no string of n bytes exactly when the region denies header and bytes, of which an empty string takes one |
| `Concat.JoinKinds` | experiments/copy_patch_cps/lua55_trace/opcode_v2_core_stencils.c:5708-5736 | the joined text of a string, an integer and a float is the object's bytes and what the two formatters write, in order |
| `Concat.RefusalFirst` | experiments/copy_patch_cps/lua55_trace/opcode_v2_core_stencils.c:2704-2723 | the measuring loop refuses exactly when an operand is no number and no string object, for the first such: a null string is an invalid object, anything else unsupported |
| `Concat.FragmentGuards` | experiments/copy_patch_cps/lua55_trace/opcode_v2_core_stencils.c:5708-5736 | measure and write fragments exit exactly when the operand has not their kind |
| `Concat.ShapeFits` | experiments/copy_patch_cps/lua55_trace/opcode_v2_core_stencils.c:5708-5736 | a chain fits its operands exactly when each fragment is the one for its operand's tag |
| `Concat.MakeKeeps` | experiments/copy_patch_cps/lua55_trace/opcode_v2_core_stencils.c:2723-2747 | making a string leaves the text of every existing string as it was |
| `Concat.MakeReads` | experiments/copy_patch_cps/lua55_trace/opcode_v2_core_stencils.c:2729-2765 | the new string reads back as the joined text if and only if its length fits 32 bits; it is tagged short exactly up to 40 bytes and its kind agrees |
| `Concat.MeasureExact` | experiments/copy_patch_cps/lua55_trace/opcode_v2_core_stencils.c:5718-5737 | the measures pass exactly when every operand has its kind, and then the total is the sum of the rendering lengths |
| `Concat.WriteExact` | experiments/copy_patch_cps/lua55_trace/opcode_v2_core_stencils.c:5778-5808 | once the kinds fit no write exits: together they write the joined text at the cursor, which ends right behind it |
| `Concat.ChainRuns` | experiments/copy_patch_cps/lua55_trace/opcode_v2_core_stencils.c:5718-5821 | from any starting total the chain exits at a measure exactly when a kind differs, with the store untouched; else it sizes the object by the total and writes the joined text |
| `Concat.ChainExact` | experiments/copy_patch_cps/lua55_trace/opcode_v2_core_stencils.c:5718-5821 | from total 0 it makes the string of the joined renderings or finds the heap full, and resets the prepared state |
| `Concat.ChainFullIff` | experiments/copy_patch_cps/lua55_trace/opcode_v2_core_stencils.c:5739-5770 | a chain overflows exactly when every operand has its kind and the joined text does not fit the region |
| `Concat.ChainRightIff` | experiments/copy_patch_cps/lua55_trace/opcode_v2_core_stencils.c:5724 | a chain that finishes yields the joined text if and only if it started at a multiple of 2^32 and the text has fewer than 2^32 bytes |
| `Concat.ExitKeepsTotal` | experiments/copy_patch_cps/lua55_trace/opcode_v2_core_stencils.c:5718-5737 | a concrete measure exit that leaves a nonzero total behind |
| `Concat.ChainIsConcat` | experiments/copy_patch_cps/lua55_trace/opcode_v2_core_stencils.c:2685-2766 | chain and one-piece opcode build the same string in the same store |
| `StringStore.StringHeap.CopyBytes` | experiments/copy_patch_cps/lua55_trace/opcode_v2_core_stencils.c:2744-2745 | the byte loop between two disjoint strings |
| `StringStore.StringHeap.MeasureLoop` | experiments/copy_patch_cps/lua55_trace/opcode_v2_core_stencils.c:2704-2723 | the measuring loop returns the total length or the first refusal |
| `StringStore.StringHeap.WriteLoop` | experiments/copy_patch_cps/lua55_trace/opcode_v2_core_stencils.c:2738-2761 | the writing loop leaves exactly the joined renderings at the target |
| `StringStore.StringHeap.ConcatOpcode` | experiments/copy_patch_cps/lua55_trace/opcode_v2_core_stencils.c:2685-2766 | the one-piece opcode in place |
| `StringStore.StringHeap.MeasureFragment` | experiments/copy_patch_cps/lua55_trace/opcode_v2_core_stencils.c:5718-5737 | a measure fragment in place |
| `StringStore.StringHeap.AllocateFragment` | experiments/copy_patch_cps/lua55_trace/opcode_v2_core_stencils.c:5739-5770 | the allocate fragment in place |
| `StringStore.StringHeap.WriteFragment` | experiments/copy_patch_cps/lua55_trace/opcode_v2_core_stencils.c:5778-5808 | a write fragment in place |
| `StringStore.StringHeap.FinishFragment` | experiments/copy_patch_cps/lua55_trace/opcode_v2_core_stencils.c:5810-5821 | the finish fragment in place, resetting the prepared state |
| `Compare.LargeIff` | experiments/copy_patch_cps/lua55_trace/opcode_compare_stencils.c:41-46 | the exponent-field test is exactly |x| >= 2^63 |
| `Compare.FromIntExact` | experiments/copy_patch_cps/lua55_trace/opcode_compare_stencils.c:49-56 | conversion of an integer with at most 53 significant bits is exact |
| `Compare.FloorValue` | experiments/copy_patch_cps/lua55_trace/opcode_compare_stencils.c:49-56 | lua55_floor is the floor, and stays below 2^63 |
| `Compare.CeilValue` | experiments/copy_patch_cps/lua55_trace/opcode_compare_stencils.c:58-65 | lua55_ceil is the ceiling, and stays below 2^63 |
| `Compare.FloatToIntExact` | experiments/copy_patch_cps/lua55_trace/opcode_compare_stencils.c:68-79 | flt_to_int yields the floor, the ceiling or the integer itself, and nothing for NaN, infinities, magnitudes of 2^63 on, and (mode eq) non-integers |
| `Compare.LtIntFloatExact` | experiments/copy_patch_cps/lua55_trace/opcode_compare_stencils.c:92-98 | i < f is exact for every int64 and every double |
| `Compare.LeFloatIntExact` | experiments/copy_patch_cps/lua55_trace/opcode_compare_stencils.c:116-122 | f <= i is exact for every int64 and every double |
| `Compare.LeIntFloatExactIff` | experiments/copy_patch_cps/lua55_trace/opcode_compare_stencils.c:100-106 | i <= f is exact if and only if the pair is not (INT64_MIN, -2^63) |
| `Compare.LtFloatIntExactIff` | experiments/copy_patch_cps/lua55_trace/opcode_compare_stencils.c:108-114 | f < i is exact if and only if the pair is not (INT64_MIN, -2^63) |
| `Compare.EqIntFloatExactIff` | experiments/copy_patch_cps/lua55_trace/opcode_compare_stencils.c:86-90 | i == f is exact if and only if the pair is not (INT64_MIN, -2^63) |
| `Compare.MinPairExists` | experiments/copy_patch_cps/lua55_trace/opcode_compare_stencils.c:45 | the exceptional pair exists |
| `Rounding.RoundNearest` | experiments/copy_patch_cps/lua55_trace/opcode_v2_core_stencils.c:867-871 | conversion to double takes the nearest of all numbers of 53 significant bits, the even one of two at the same distance |
| `Rounding.FromIntRounded` | experiments/copy_patch_cps/lua55_trace/opcode_v2_core_stencils.c:867-871 | the converted datum is the rounded integer |
| `Rounding.RoundedSelfIff` | experiments/copy_patch_cps/lua55_trace/opcode_v2_core_stencils.c:867-871 | conversion is exact if and only if 53 significant bits hold the integer |
| `Rounding.OrderKept` | experiments/copy_patch_cps/lua55_trace/opcode_v2_core_stencils.c:867-900 | conversion keeps the order of an integer against every datum, up to equality |
| `Rounding.MixedOrderIff` | experiments/copy_patch_cps/lua55_trace/opcode_v2_core_stencils.c:855-911 | an ordering opcode on an integer and a float, in either order, branches as the mathematical values ask, if and only if not: the float is what the integer rounds to, and rounding crossed on the side the operator distinguishes |
| `Rounding.StepBranches` | experiments/copy_patch_cps/lua55_trace/opcode_v2_core_stencils.c:855-911 | an ordering instruction on integers, floats, strings or a mixed pair takes its branch exactly when the comparison is the one its sense asks for, unless the pair is misjudged; it refuses what cannot be compared, and writes nothing |
| `Rounding.RoundedDownWitness` | experiments/copy_patch_cps/lua55_trace/opcode_v2_core_stencils.c:896-897 | 2^53 + 1 <= 2^53 holds for the opcode |
| `Rounding.RoundedUpWitness` | experiments/copy_patch_cps/lua55_trace/opcode_v2_core_stencils.c:867-868 | 2^53 + 3 < 2^53 + 4 fails for the opcode |
| `Arithmetic.FloorDivMod` | experiments/copy_patch_cps/lua55_trace/opcode_v2_core_stencils.c:233-249 | v2_idiv and v2_mod are floor division and modulo with m = q * n + r for every pair but INT64_MIN // -1 |
| `Operators.IntOpMeans` | experiments/copy_patch_cps/lua55_trace/opcode_v2_core_stencils.c:211-280 | every integer operation computes what it means: sum, difference and product modulo 2^64, floor quotient, modulo with the divisor's sign, and, or, xor bit by bit, and shifts as moved bits for every count |
| `Operators.BodiesAreInstructions` | experiments/copy_patch_cps/lua55_trace/opcode_v2_core_stencils.c:4530-4575 | the loop bodies the fused leaves stand for are the ADDI and ADD instructions on the accumulator |
| `Operators.MeansOnce` | experiments/copy_patch_cps/lua55_trace/opcode_v2_core_stencils.c:211-280 | the meaning determines the result |
| `Operators.StepComputes` | experiments/copy_patch_cps/lua55_trace/opcode_v2_core_stencils.c:534-704 | an arithmetic, bitwise or shift instruction with a register, immediate or constant operand writes `l op r` to its target and nothing else, or refuses and changes nothing; floats and conversions included |
| `Learning.SettledIff` | experiments/copy_patch_cps/lua55_trace/opcode_v2_core_stencils.c:1824-1833 | a slot is free of conflict if and only if all its observations were equal, and then it holds them |
| `Learning.KeyTagNilBlind` | experiments/copy_patch_cps/lua55_trace/opcode_v2_core_stencils.c:1899-1909 | the single-tag slot forgets a leading nil observation |
| `Learning.KeyTagSettledIff` | experiments/copy_patch_cps/lua55_trace/opcode_v2_core_stencils.c:1899-1909 | it is free of conflict if and only if the observations after the leading nils were equal |
| `Learning.LeafExact` | experiments/copy_patch_cps/lua55_trace/opcode_v2_core_stencils.c:3559-3692 | behind its guards every leaf has the learner's effect |
| `Learning.EffectHasLeaf` | experiments/copy_patch_cps/lua55_trace/opcode_v2_core_stencils.c:534-633 | whatever a learner does not reject has a leaf that accepts it |
| `Learning.StepAgrees` | experiments/copy_patch_cps/lua55_trace/opcode_v2_core_stencils.c:3559-3665 | while the guards admit, a residual step is a learner step |
| `Learning.Simulation` | experiments/copy_patch_cps/lua55_trace/opcode_v2_core_stencils.c:3522-3665 | for every program and length the residual chain agrees with the learner chain on all steps, or stops for good at the first instruction whose tags differ with registers exactly as the learner has them before it |
| `Learning.SameTagsSameRun` | experiments/copy_patch_cps/lua55_trace/opcode_v2_core_stencils.c:3522-3665 | if the tags recur, the registers end the same |
| `Learning.RerunAgrees` | experiments/copy_patch_cps/lua55_trace/opcode_v2_core_stencils.c:1824-1833 | the chain specialised from the slots of a conflict-free run repeats that run step for step, refusals by a leaf included; where the learner refuses tags without a leaf it mismatches there with the same registers |
| `Stencils.RecordPair` | experiments/copy_patch_cps/lua55_trace/opcode_v2_core_stencils.c:1824-1833 | recording in place |
| `Stencils.ArithStencil` | experiments/copy_patch_cps/lua55_trace/opcode_v2_core_stencils.c:534-582 | the tag dispatch of the arithmetic learners in place |
| `Stencils.BitsStencil` | experiments/copy_patch_cps/lua55_trace/opcode_v2_core_stencils.c:583-633 | the operand conversions and the write of the bitwise and shift learners in place |
| `Stencils.OrderStencil` | experiments/copy_patch_cps/lua55_trace/opcode_v2_core_stencils.c:855-911 | the tag dispatch and branch of the ordering learners |
| `Stencils.LearnerStencil` | experiments/copy_patch_cps/lua55_trace/opcode_v2_core_stencils.c:534-577 | a generic stencil in place: record, dispatch on tags, write |
| `Stencils.ResidualStencil` | experiments/copy_patch_cps/lua55_trace/opcode_v2_core_stencils.c:3559-3665 | a leaf in place; a mismatch leaves registers and pc alone |
| `Witnesses.VarargOverrunsWitness` | experiments/copy_patch_cps/lua55_trace/opcode_v2_core_stencils.c:2422-2432 | from a launched main chunk, f(1, ..., n) with n >= 19 and 18 registers, and then `...`: top passes the registers and the first surplus argument reads 19 afterwards |
| `Witnesses.TailOverrunsWitness` | experiments/copy_patch_cps/lua55_trace/opcode_v2_core_stencils.c:1178-1183 | from a launched main chunk, `return f(1, ..., n)` with n >= 18 and 18 registers: the TAILCALL enters f with its eighteenth argument 1 |
| `Witnesses.RootReturnWitness` | experiments/copy_patch_cps/lua55_trace/opcode_v2_core_stencils.c:1290-1301 | a root state satisfying the machine invariant whose captured register closes on a result |
| `Witnesses.CallOneWitness` | experiments/copy_patch_cps/lua55_trace/opcode_v2_core_stencils.c:5132-5194 | a callee without value slots that gets top 1 from the leaf and top 0 from CALL |
| `U64Loops.MachineLaws` | experiments/copy_patch_cps/negative_space_stencils.c:157-161 | the 64-bit operations satisfy the laws the loops rely on |
| `U64Loops.RotateBits` | experiments/copy_patch_cps/u64_learned_loop_stencils.c:30-34 | rotation to the left, bit by bit, for every count |
| `U64Loops.ElementMeans` | experiments/copy_patch_cps/u64_learned_loop_stencils.c:36-60 | bit i of an element is bit i - rotate of the sum modulo 2^64, flipped where the mask has a bit |
| `U64Loops.BulkLaneExact` | experiments/copy_patch_cps/negative_space_stencils.c:171-175 | a lane of the generic vector loop is rotl((x + addend) ^ mask), also when nothing rotates and the right count is 64 |
| `U64Loops.LanesExact` | experiments/copy_patch_cps/u64_learned_loop_stencils.c:69-76 | vector lane and scalar element of the chosen specialised loop are rotl((x + addend) ^ mask), although absent operations are left out |
| `U64Loops.BulkLoop` | experiments/copy_patch_cps/negative_space_stencils.c:163-183 | the generic loop writes exactly the transformed elements, for every count, in place or not |
| `U64Loops.TailLoop` | experiments/copy_patch_cps/u64_learned_loop_stencils.c:78-98 | the specialised loop of the right kind, tail and rotation writes the same output |
| `U64Loops.ChosenFits` | experiments/copy_patch_cps/u64_native_learner.c:29-38 | the variant picked by kind bits, count mod 4 and rotation is the loop for the operands |
| `U64Loops.NativeLearner.LearnAndExecute` | experiments/copy_patch_cps/u64_native_learner.c:29-49 | status 0 writes the transformed output and raises the generation by one; every other status writes no output; a missing or oversized variant changes nothing at all |

## Left out

- Hole patching, inline-assembly barriers, code copying and page protection: holes are parameters, and the answers of the protection changes are parameters of `LearnAndExecute`.
- The bank builder: which leaf is staged for which slot is modelled as a table lookup (`Learning.LeafFor`), and an instruction without a leaf exits as a mismatch.
- pow, the number formatters and all double arithmetic outside `Compare`: foreign or rounding code; they are function parameters. The `pow` leaves are not modelled.
- Equality opcodes, unary opcodes, TEST, TESTSET and LOAD forms: they would only add easy members; the mixed-tag equality leaf also needs the short/long length invariant of strings.
- The floating protocol of FORPREP, FORLOOP and the fused loops: whether it ends depends on rounding.
- SETLIST and the fixed-count VARARG fragments: the same copy loops again.
- TBC nodes, TFORPREP, host call resumption and the error outcomes of the driver: they depend on host code; a host call ends the step with its outcome recorded.
- Metatables and receiver checks: the checks are one boolean parameter where a leaf makes them.
- Write-barrier, epoch and object counters, and the 32-bit wrap of the storage generation.
- String interning and string comparison bodies: the comparison is a parameter.
- The learning writes inside CALL, TAILCALL and FORPREP: they touch no modelled state.
- V1 learn, residual and poly stencils other than the named helpers, the float vector kernels and the UI and benchmark programs.
- Partial overlap of input and output in the bulk loops: the arrays are equal or disjoint.
- Machine.StepInv: an operation whose operands, fixed in the bytecode, name no register or upvalue is skipped, since projected code has none; counts that are dynamic (varargs, top) are not restricted. Capture vectors have at most four entries, as the leaves do.
- Tables.SetIsUpdate: speaks of writes that stay within 32 bits; the others are those of `Tables.SetUnboundedIff`, and what they leave in memory is not modelled.
- TableStore.GuestTable.SetValue: asks for a heap that does not end at the very top of the address space, and for a request within the 32-bit capacities.
- Iterators.NextIter: promises nothing of the registers after a read outside the array.
- Concat.ChainExact: asks for known string objects and for a region end that leaves room for the request below 2^64.
- Compare.FloatToIntExact: `FloatToInt` converts only data below 2^63, as the C cast is defined there only.
