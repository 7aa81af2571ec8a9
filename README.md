# IMCC instruction lists, modelled in Dafny

This project models the instruction-list core of Parrot's IMCC code generator,
`compilers/imcc/instructions.c`. It has three parts.

- **The splice engine** (module `Splice`).
  - An `IMC_Unit` owns a doubly linked list of `Instruction` nodes. It holds the head in `instructions` and the tail in `last_ins`.
  - `_delete_ins`, `delete_ins`, `insert_ins`, `prepend_ins`, `subst_ins`, `move_ins` and `emitb` rewire `prev`/`next` in place.
  - The unit is a class with a ghost sequence `Contents`. `Valid()` ties that sequence to the links, the head and the tail.
  - Each operation is a method whose postcondition states the new sequence and the new head, tail and line fields.
- **The def/use queries** (module `DefUse`). `instruction_reads` and `instruction_writes` decide whether an instruction reads or writes an operand.
  - Each is specified by a predicate (`Reads`, `Writes`) over the list and the instruction's position in it.
  - Each is implemented by a method that scans operand slots and walks `prev`/`next` as the C does. The method is proved equal to its predicate.
- **Branch-target resolution** (module `Branch`). `get_branch_regno` and `get_branch_reg` find the operand slot that holds a branch target. The scan runs down from slot `opsize - 2` and stops at the first empty slot. The answer is the highest slot it reaches whose bit is set in the `type` word, or -1 when there is none.

Shared pieces:
- `Instructions` holds the `Instruction` class (`_mk_instruction` is its constructor) and the predicates on linked sequences of instructions.
- `Operands` holds the operand (`SymReg`) as far as this code looks at it: its identity, its register set, and for keyed operands the `nextkey` chain and each entry's `reg`.

Modelling choices:
- **Op kinds.** The source identifies the four calling-convention pseudo-ops (`set_args_pc`, `set_returns_pc`, `get_params_pc`, `get_results_pc`) by comparing `ins->op` with entries of the core op table. Here each instruction carries an enum `OpKind`, with `Ordinary` for every other op and for no op.
- **Bits.** Flags and `type` are 32-bit words (`bv32`). The call-sequence tag `ITPCCSUB` is `0x2000000`, as declared in `compilers/imcc/instructions.h`. A test of bit 32 or above is an undefined shift in C; here such a bit counts as clear.
- **Line numbers.** `emitb` reads the lexer's current line from its `imcc` argument; here that line is a parameter.
- **Line copy on insertion.** The null-anchor branch of `insert_ins` gives `tmp` the old head's line whatever `tmp->line` was (lines 381-384). On an empty list it leaves `tmp->line` alone (lines 385-387). The anchored branch copies the anchor's line only when `tmp->line` is 0.
- **Where a call's write search starts.** For a call, `instruction_writes` starts its search for `get_results` at the call's predecessor `ins->prev` (line 205). So a `get_results` directly before the call counts, and a call at the head of the list writes nothing.

## Model

| member | source | states |
|---|---|---|
| Instructions.Instruction.constructor | compilers/imcc/instructions.c:70-90 | `_mk_instruction`: a fresh node with the given name, format, flags and operand count. The operand array has room for max(n,1) slots and holds the first n operands. `op` is ordinary, `type`, `opsize` and `line` are 0, and both links are null |
| Splice.RemoveAtDistinct | compilers/imcc/instructions.c:314-331 | unlinking a node keeps the remaining nodes distinct; a node is still in the list iff it was there and is not the removed one |
| Splice.InsertAtDistinct | compilers/imcc/instructions.c:371-403 | inserting a node that is not yet in the list keeps the nodes distinct and adds exactly that node |
| Splice.UnlinkUndoesInsert | compilers/imcc/instructions.c:314-331 | unlinking a freshly inserted node restores the list it was inserted into |
| Splice.MoveAfterPermutes | compilers/imcc/instructions.c:500-506 | `move_ins` keeps the length and the multiset of nodes |
| Splice.MoveAfterPlaces | compilers/imcc/instructions.c:500-506 | after `move_ins` the list has no repetitions and the moved node directly follows `to` |
| Splice.LinkedAfterRemove | compilers/imcc/instructions.c:320-328 | the links `_delete_ins` leaves on the other nodes form a complete doubly linked list of the remaining sequence |
| Splice.ThreadedAfterInsert | compilers/imcc/instructions.c:389-399 | the links an insertion leaves thread the new sequence. It is a complete list iff the inserted node's `prev` is null whenever it went to the front |
| Splice.LinkedAfterReplace | compilers/imcc/instructions.c:461-475 | the links `subst_ins` leaves form a complete list of the sequence with `tmp` in place of `ins` |
| Splice.Unit.RemovedValid | compilers/imcc/instructions.c:320-328 | the links plus the head and tail updates of `_delete_ins` make a valid unit |
| Splice.Unit.InsertedValid | compilers/imcc/instructions.c:389-399 | the links, head and tail after an anchored insertion make a valid unit |
| Splice.Unit.InsertedBeforeEnds | compilers/imcc/instructions.c:429-442 | when `prepend_ins` leaves the head and tail alone, they still point at the ends iff the anchor was not the head |
| Splice.Unit.UnlinkIns | compilers/imcc/instructions.c:314-331 | `_delete_ins`: the unit stays valid and holds the old list minus `ins`. It returns the old `ins->next`. The head moves to it if `ins` was the head, and the tail moves to the old `ins->prev` if `ins` was the tail. `ins` keeps its own stale links |
| Splice.Unit.DeleteIns | compilers/imcc/instructions.c:348-357 | `delete_ins` (unlinking only): valid, the old list minus `ins`, and the old successor returned |
| Splice.Unit.LinkFirst | compilers/imcc/instructions.c:375-388 | null anchor: `tmp` becomes the head, and also the tail of an empty list. On a non-empty list it takes the old head's line whatever its own; on an empty list its line is left alone. Its `prev` is not reset, so the unit is valid iff that `prev` was already null |
| Splice.Unit.LinkAfter | compilers/imcc/instructions.c:389-403 | anchored `insert_ins`: valid, with `tmp` inserted directly after `ins` and every other node in order. The tail moves to `tmp` if `ins` was the tail. `tmp` takes `ins`'s line only if its own was 0 |
| Splice.Unit.InsertIns | compilers/imcc/instructions.c:371-404 | `insert_ins`: with an anchor as `LinkAfter`, without one as `LinkFirst` |
| Splice.Unit.LinkBefore | compilers/imcc/instructions.c:429-442 | anchored `prepend_ins`: the links describe the old list with `tmp` directly before `ins`, and head and tail are untouched. The unit is valid iff `ins` was not the head. `tmp` takes `ins`'s line only if its own was 0 |
| Splice.Unit.PrependIns | compilers/imcc/instructions.c:418-443 | `prepend_ins`: null anchor as `LinkFirst` (the list must be non-empty and the old head's line is copied), anchor as `LinkBefore`. With an anchor the head and tail never change, and validity is kept iff the anchor was not the head |
| Splice.Unit.LinkBeforeCorrected | compilers/imcc/instructions.c:429-442 | anchored prepend that also moves the head to `tmp` when `ins` was the head: always valid, with `tmp` directly before `ins` |
| Splice.Unit.PrependInsCorrected | compilers/imcc/instructions.c:418-443 | `prepend_ins` as intended: with an anchor the unit stays valid and `tmp` lands directly before `ins` |
| Splice.Unit.SubstIns | compilers/imcc/instructions.c:458-483 | `subst_ins`: valid, with `tmp` exactly at `ins`'s position, so the length is unchanged. Head and tail follow if `ins` was first or last. `tmp` takes `ins`'s line only if its own was 0, and `ins` keeps its stale links |
| Splice.Unit.MoveIns | compilers/imcc/instructions.c:500-506 | `move_ins`: valid, with `ins` taken out and put back directly after `to`. It returns `ins`'s old successor, and `ins` takes `to`'s line only if its own was 0 |
| Splice.Emitb | compilers/imcc/instructions.c:521-540 | `emitb`: returns null when `unit` or `i` is null, and then may change nothing (its frame is empty); a given unit stays as it was. Otherwise it appends `i` at the tail (as head and tail of an empty list), sets its line and returns it. Every link except `i->next` follows the new order: the old tail's `next` is `i`. `i->next`, and `i->prev` on an empty list, are left as they were, so the unit is valid iff those were null |
| DefUse.LastSetArgs | compilers/imcc/instructions.c:149-154 | the position the `prev` walk from a call stops at: the nearest `set_args` at or before it, or -1 with none in between |
| DefUse.NextGetResults | compilers/imcc/instructions.c:203-215 | the position the `next` walk stops at: the first `get_results` at or after the start, or -1 with none from there on |
| DefUse.CallReadsIff | compilers/imcc/instructions.c:149-160 | a call reads `r` iff its read bits say so, or `r` is an operand of a `set_args` at or before it with no other `set_args` in between |
| DefUse.CallWritesIff | compilers/imcc/instructions.c:203-223 | a call writes `r` iff it has a predecessor and `r` is an operand of a `get_results` at or after that predecessor with no other `get_results` in between |
| DefUse.LastSetArgsInsert | compilers/imcc/instructions.c:149-154 | inserting a non-`set_args` node shifts the nearest `set_args` along with the list and adds none |
| DefUse.NextGetResultsAfterInsert | compilers/imcc/instructions.c:203-215 | a `get_results` search starting past an insertion finds the same node one position on |
| DefUse.NextGetResultsInsert | compilers/imcc/instructions.c:203-215 | a search starting at or before an inserted non-`get_results` skips it and finds the same node |
| DefUse.ReadsKeptByInsert | compilers/imcc/instructions.c:104-163 | what an instruction reads is unchanged by inserting a non-`set_args` node anywhere |
| DefUse.WritesKeptByInsert | compilers/imcc/instructions.c:177-246 | what an instruction writes is unchanged by inserting a non-`get_results` node anywhere except directly before it |
| DefUse.WritesShiftedByInsertBeforeCall | compilers/imcc/instructions.c:203-215 | a node inserted between a `get_results` and the following call hides that `get_results`. The call then writes what the next `get_results` after it holds |
| DefUse.ScanOperands | compilers/imcc/instructions.c:114-118 | the downward operand scan answers true iff some populated slot holds `r` |
| DefUse.ScanKeys | compilers/imcc/instructions.c:140-144 | the `nextkey` walk answers true iff some entry of the key chain has `reg == r` |
| DefUse.ScanReadSlots | compilers/imcc/instructions.c:126-146 | the read-bit scan answers true iff some slot j with bit j set holds `r`, or holds a keyed operand with a key entry for `r` |
| DefUse.ScanWriteSlots | compilers/imcc/instructions.c:240-243 | the write-bit scan answers true iff some slot j with bit 16+j set holds `r` |
| DefUse.InstructionReads | compilers/imcc/instructions.c:104-163 | `instruction_reads` equals `Reads`. `set_args` and `set_returns` read their operands, and `get_params` and `get_results` read nothing. Other instructions read their read-bit slots, and a call also reads the nearest `set_args` at or before it |
| DefUse.InstructionWrites | compilers/imcc/instructions.c:177-246 | `instruction_writes` equals `Writes`. `get_results` writes its operands. A call writes the operands of the first `get_results` from its predecessor on (nothing at the head). `get_params` writes its operands, `set_args` and `set_returns` write nothing, and other instructions write their write-bit slots |
| Branch.BranchRegnoUnique | compilers/imcc/instructions.c:260-270 | `IsBranchRegno`, the declarative statement of the branch slot, admits at most one answer |
| Branch.GetBranchRegno | compilers/imcc/instructions.c:260-270 | returns the highest slot j ≤ `opsize - 2` with `type` bit j set among the non-null slots reached scanning down from `opsize - 2`, or -1 |
| Branch.GetBranchReg | compilers/imcc/instructions.c:285-294 | returns the operand in that slot, and null exactly when there is none |

## Left out

- Freeing memory is not modelled. That covers `free_ins`, the `free_ins` call in `delete_ins` and the `needs_freeing` branch of `subst_ins` (`SubstIns` accepts the flag and ignores it). Deleting is unlinking only.
- `ins_print` and the emitter back ends (`e_pasm_*`, `emit_open`, `emit_flush`, `emit_close`) are not modelled: they are formatting and file I/O around an external bytecode writer.
- The core op-table lookup (`PARROT_GET_CORE_OPLIB`, `OP_INFO_OPNUM`, `op_info_table`) is a foreign table. It is replaced by the `OpKind` field.
- Duplicating the opcode name and format strings (`mem_sys_strdup`) is modelled as storing the strings. A negative operand count `n` cannot be expressed, because `n` is a natural number.
- Operands are opaque except for identity, register set, `nextkey` and `reg`. `KeysOk` assumes every `nextkey` chain is finite. A cyclic chain would make the C loop forever, and it is not modelled.
- Splice.Emitb: the current lexer line from `imcc` is the `imccLine` parameter. Callers must not emit an instruction that is already in the unit; the C does not check this and would corrupt the list.
- DefUse.InstructionReads: requires every slot with its read bit set to hold an operand with a finite key chain (`ReadSlotsOk`). The C dereferences only the slots it reaches before it finds a match.
- DefUse.InstructionReads and DefUse.InstructionWrites: the instruction's position in its list is a ghost argument. The methods themselves only follow `prev`/`next`.
- Bits 32 and above of `flags` and `type` (a C shift by 32 or more) count as clear. A read scan over more than 16 slots consults write bits, because bit j is tested for every slot j; this is modelled as written.
- Branch.GetBranchRegno: requires `opsize - 2` to lie inside the operand array, because the C indexes `symregs[opsize - 2]` unguarded.
- Splice.Unit.PrependIns: for a null anchor, requires a non-empty list, because the C dereferences the old head unguarded.
- Splice.Unit.MoveIns: requires `ins` and `to` to differ. With `ins == to` the C would link `ins` to itself, leaving no list to describe.
- Splice.Unit.SubstIns: reads `ins->next` again after the stores, as the C does. Because `ins` is never one of the nodes written, this reads the same value.

## Findings

| source | as written | input that shows it | evidently intended | confidence | as-written member | corrected member |
|---|---|---|---|---|---|---|
| compilers/imcc/instructions.c:429-442 | `prepend_ins` with an anchor never updates `unit->instructions`, even when the anchor is the head | a unit holding the single instruction `a`, then `prepend_ins(unit, a, t)`: the links run `t`, `a`, but the head still points at `a` | `t` becomes the new head | medium, not executed | Splice.Unit.PrependIns | Splice.Unit.PrependInsCorrected |
