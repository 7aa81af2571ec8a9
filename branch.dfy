/** Branch-target resolution: which operand slot of an instruction holds
    the label it branches to. The slots that are branch targets are marked
    by per-slot bits in the instruction's `type` word. */
module Branch {
  import opened Operands
  import opened Instructions

  /** Slot `j` lies in the range the scan covers (0 up to `opsize - 2`)
      and every slot from it up to `opsize - 2` holds an operand, so a scan
      downward from `opsize - 2` that stops at the first empty slot gets
      there. */
  ghost predicate Reached(ins: Instruction, j: int)
    requires ins.opsize - 2 < ins.symregs.Length
    reads ins, ins.symregs
  {
    0 <= j <= ins.opsize - 2 && forall m | j <= m <= ins.opsize - 2 :: ins.symregs[m] != null
  }

  /** `j` is the branch-target slot: the highest reached slot whose bit is
      set in `type`, or -1 when no reached slot has its bit set. */
  ghost predicate IsBranchRegno(ins: Instruction, j: int)
    requires ins.opsize - 2 < ins.symregs.Length
    reads ins, ins.symregs
  {
    (j == -1 || (Reached(ins, j) && Bit(ins.typeMask, j))) &&
    forall m | j < m && Reached(ins, m) :: !Bit(ins.typeMask, m)
  }

  /** The description above fixes the answer: no two slots fit it. */
  lemma BranchRegnoUnique(ins: Instruction, a: int, b: int)
    requires ins.opsize - 2 < ins.symregs.Length
    requires IsBranchRegno(ins, a) && IsBranchRegno(ins, b)
    ensures a == b
  {
  }

  /** `get_branch_regno`: scans the slots downward from `opsize - 2`,
      stopping at the first empty one, for a slot whose `type` bit is set. */
  method GetBranchRegno(ins: Instruction) returns (j: int)
    requires ins.opsize - 2 < ins.symregs.Length
    ensures IsBranchRegno(ins, j)
  {
    j := ins.opsize - 2;
    while j >= 0 && ins.symregs[j] != null
      invariant j <= ins.opsize - 2
      invariant forall m | 0 <= m && j < m <= ins.opsize - 2 :: ins.symregs[m] != null
      invariant forall m | j < m && Reached(ins, m) :: !Bit(ins.typeMask, m)
      decreases j + 1
    {
      if Bit(ins.typeMask, j) {
        return j;
      }
      j := j - 1;
    }
    return -1;
  }

  /** `get_branch_reg`: the operand in the branch-target slot, or null
      when there is none. */
  method GetBranchReg(ins: Instruction) returns (reg: SymReg?)
    requires ins.opsize - 2 < ins.symregs.Length
    ensures exists j :: IsBranchRegno(ins, j) && reg == (if j >= 0 then ins.symregs[j] else null)
    ensures reg == null <==> IsBranchRegno(ins, -1)
  {
    var j := GetBranchRegno(ins);
    if j >= 0 {
      return ins.symregs[j];
    }
    return null;
  }
}
