/** The def/use queries `instruction_reads` and `instruction_writes`: does
    an instruction read (use) or write (define) a given operand? Each is
    specified by a predicate over the list the instruction sits in, and
    modelled by a method that walks the operand slots and, for the call of
    a calling-convention sequence, the `prev`/`next` links as the source
    does. */
module DefUse {
  import opened Operands
  import opened Instructions
  import opened Splice

  /** Some populated slot of `ins` holds `r`. */
  ghost predicate Mentions(ins: Instruction, r: SymReg)
    requires ins.Shaped()
    reads ins.symregs
  {
    exists j :: 0 <= j < ins.symregCount && ins.symregs[j] == r
  }

  /** Every slot whose read bit is set holds an operand, and every key
      chain hanging off one is finite. The read scan dereferences such a
      slot to look at its register set. */
  ghost predicate ReadSlotsOk(ins: Instruction)
    requires ins.Shaped()
    reads ins.symregs
  {
    forall j :: 0 <= j < ins.symregCount && ReadBit(ins.flags, j) ==>
      ins.symregs[j] != null && ins.symregs[j].KeysOk()
  }

  /** Slot `j` of `ins` is read and holds `r`, or holds a keyed operand
      one of whose key entries stands for `r`. */
  ghost predicate SlotReads(ins: Instruction, j: nat, r: SymReg)
    requires ins.Shaped() && ReadSlotsOk(ins) && j < ins.symregCount
    reads ins.symregs
  {
    ReadBit(ins.flags, j) &&
    (ins.symregs[j] == r || (ins.symregs[j].regSet == KEYED && ins.symregs[j].KeyedBy(r)))
  }

  /** What the read bits of an ordinary instruction say about `r`. */
  ghost predicate FlagReads(ins: Instruction, r: SymReg)
    requires ins.Shaped() && ReadSlotsOk(ins)
    reads ins.symregs
  {
    exists j :: 0 <= j < ins.symregCount && SlotReads(ins, j, r)
  }

  /** What the write bits of an ordinary instruction say about `r`. */
  ghost predicate FlagWrites(ins: Instruction, r: SymReg)
    requires ins.Shaped()
    reads ins.symregs
  {
    exists j :: 0 <= j < ins.symregCount && WriteBit(ins.flags, j) && ins.symregs[j] == r
  }

  /** Position of the nearest `set_args` at or before position `i`, or -1
      when there is none. */
  ghost function LastSetArgs(s: seq<Instruction>, i: nat): (k: int)
    requires i < |s|
    reads s
    ensures -1 <= k <= i
    ensures k >= 0 ==> s[k].op == SetArgs
    ensures forall m | k < m <= i :: s[m].op != SetArgs
  {
    if s[i].op == SetArgs then i
    else if i == 0 then -1
    else LastSetArgs(s, i - 1)
  }

  /** Position of the first `get_results` at or after position `lo`, or -1
      when there is none. */
  ghost function NextGetResults(s: seq<Instruction>, lo: nat): (k: int)
    requires lo <= |s|
    reads s
    decreases |s| - lo
    ensures k == -1 || lo <= k < |s|
    ensures k >= 0 ==> s[k].op == GetResults
    ensures forall m | lo <= m < (if k >= 0 then k else |s|) :: s[m].op != GetResults
  {
    if lo == |s| then -1
    else if s[lo].op == GetResults then lo
    else NextGetResults(s, lo + 1)
  }

  /** `instruction_reads` for the instruction at position `i` of `s`:
      `set_args`/`set_returns` read all their operands, `get_params`/
      `get_results` read nothing, any other instruction reads what its
      read bits name, and the call of a calling-convention sequence also
      reads the operands of the nearest `set_args` at or before it. */
  ghost predicate Reads(s: seq<Instruction>, i: nat, r: SymReg)
    requires i < |s| && AllShaped(s) && ReadSlotsOk(s[i])
    reads s, s[i].symregs, SlotArrays(s)
  {
    match s[i].op
    case SetArgs | SetReturns => Mentions(s[i], r)
    case GetParams | GetResults => false
    case Ordinary =>
      FlagReads(s[i], r) ||
      (s[i].PccSub() && LastSetArgs(s, i) >= 0 && Mentions(s[LastSetArgs(s, i)], r))
  }

  /** What an instruction that is not the call of a calling-convention
      sequence writes: `get_results` and `get_params` all their operands,
      `set_args`/`set_returns` nothing, any other instruction what its
      write bits name. */
  ghost predicate OwnWrites(ins: Instruction, r: SymReg)
    requires ins.Shaped()
    reads ins, ins.symregs
  {
    match ins.op
    case GetResults | GetParams => Mentions(ins, r)
    case SetArgs | SetReturns => false
    case Ordinary => FlagWrites(ins, r)
  }

  /** `instruction_writes` for the instruction at position `i` of `s`: a
      `get_results` is checked first; otherwise the call of a
      calling-convention sequence writes the operands of the first
      `get_results` at or after its predecessor (nothing at the head of
      the list), and any other instruction what `OwnWrites` says. */
  ghost predicate Writes(s: seq<Instruction>, i: nat, r: SymReg)
    requires i < |s| && AllShaped(s)
    reads s, SlotArrays(s)
  {
    if s[i].op != GetResults && s[i].PccSub() then
      i > 0 && NextGetResults(s, i - 1) >= 0 && Mentions(s[NextGetResults(s, i - 1)], r)
    else
      OwnWrites(s[i], r)
  }

  /** Where position `k` of a list ends up once an instruction is
      inserted at position `p` (-1, "none", stays -1). */
  function Shift(k: int, p: nat): int {
    if k >= p then k + 1 else k
  }

  /** Inserting at position `p` moves the element at position `k` to
      position `Shift(k, p)`. */
  lemma InsertAtShift(s: seq<Instruction>, p: nat, x: Instruction, k: nat)
    requires p <= |s| && k < |s|
    ensures Shift(k, p) < |InsertAt(s, p, x)| && InsertAt(s, p, x)[Shift(k, p)] == s[k]
  {
  }

  /** The call of a calling-convention sequence reads, besides what its
      read bits name, exactly the operands of a `set_args` at or before it
      with no other `set_args` in between. */
  lemma CallReadsIff(s: seq<Instruction>, i: nat, r: SymReg)
    requires i < |s| && AllShaped(s) && ReadSlotsOk(s[i])
    requires s[i].op == Ordinary && s[i].PccSub()
    ensures Reads(s, i, r) <==>
      FlagReads(s[i], r) ||
      exists k :: 0 <= k <= i && s[k].op == SetArgs &&
        (forall m | k < m <= i :: s[m].op != SetArgs) && Mentions(s[k], r)
  {
    var last := LastSetArgs(s, i);
    forall k | 0 <= k <= i && s[k].op == SetArgs && (forall m | k < m <= i :: s[m].op != SetArgs)
      ensures k == last
    {
    }
  }

  /** The call of a calling-convention sequence writes exactly the
      operands of a `get_results` found at or after its predecessor with
      no other `get_results` in between; at the head of the list it writes
      nothing. */
  lemma CallWritesIff(s: seq<Instruction>, i: nat, r: SymReg)
    requires i < |s| && AllShaped(s)
    requires s[i].op != GetResults && s[i].PccSub()
    ensures Writes(s, i, r) <==>
      i > 0 &&
      exists k :: i - 1 <= k < |s| && s[k].op == GetResults &&
        (forall m | i - 1 <= m < k :: s[m].op != GetResults) && Mentions(s[k], r)
  {
    if i > 0 {
      var first := NextGetResults(s, i - 1);
      forall k | i - 1 <= k < |s| && s[k].op == GetResults && (forall m | i - 1 <= m < k :: s[m].op != GetResults)
        ensures k == first
      {
      }
    }
  }

  /** Inserting an instruction that is not a `set_args` moves the nearest
      `set_args` along with the rest of the list and introduces no new one. */
  lemma {:induction false} LastSetArgsInsert(s: seq<Instruction>, p: nat, x: Instruction, i: nat)
    requires p <= |s| && i < |s| && x.op != SetArgs
    ensures LastSetArgs(InsertAt(s, p, x), Shift(i, p)) == Shift(LastSetArgs(s, i), p)
    decreases i
  {
    var t := InsertAt(s, p, x);
    assert t[Shift(i, p)] == s[i];
    if s[i].op != SetArgs && i > 0 {
      LastSetArgsInsert(s, p, x, i - 1);
      if i == p {
        assert t[p] == x;
      }
    }
  }

  /** A search for `get_results` that starts after an inserted
      instruction finds what it found before, one position further on. */
  lemma {:induction false} NextGetResultsAfterInsert(s: seq<Instruction>, p: nat, x: Instruction, lo: nat)
    requires p <= lo <= |s|
    ensures NextGetResults(InsertAt(s, p, x), lo + 1) == Shift(NextGetResults(s, lo), p)
    decreases |s| - lo
  {
    var t := InsertAt(s, p, x);
    if lo < |s| {
      assert t[lo + 1] == s[lo];
      if s[lo].op != GetResults {
        NextGetResultsAfterInsert(s, p, x, lo + 1);
      }
    }
  }

  /** A search for `get_results` that starts at or before an inserted
      instruction that is not a `get_results` skips it and otherwise finds
      what it found before. */
  lemma {:induction false} NextGetResultsInsert(s: seq<Instruction>, p: nat, x: Instruction, lo: nat)
    requires lo <= p <= |s| && x.op != GetResults
    ensures NextGetResults(InsertAt(s, p, x), lo) == Shift(NextGetResults(s, lo), p)
    decreases p - lo
  {
    var t := InsertAt(s, p, x);
    if lo == p {
      assert t[p] == x;
      NextGetResultsAfterInsert(s, p, x, p);
    } else {
      assert t[lo] == s[lo];
      if s[lo].op != GetResults {
        NextGetResultsInsert(s, p, x, lo + 1);
      }
    }
  }

  /** What an instruction reads does not change when an instruction that
      is not a `set_args` is inserted anywhere in its list. */
  lemma ReadsKeptByInsert(s: seq<Instruction>, p: nat, x: Instruction, i: nat, r: SymReg)
    requires p <= |s| && i < |s| && AllShaped(s) && x.Shaped() && ReadSlotsOk(s[i])
    requires x.op != SetArgs
    ensures AllShaped(InsertAt(s, p, x)) && InsertAt(s, p, x)[Shift(i, p)] == s[i]
    ensures Reads(InsertAt(s, p, x), Shift(i, p), r) == Reads(s, i, r)
  {
    var t := InsertAt(s, p, x);
    assert t[Shift(i, p)] == s[i];
    LastSetArgsInsert(s, p, x, i);
    var k := LastSetArgs(s, i);
    if k >= 0 {
      assert t[Shift(k, p)] == s[k];
    }
  }

  /** What an instruction writes does not change when an instruction that
      is not a `get_results` is inserted anywhere in its list except
      directly in front of it: the call of a calling-convention sequence
      starts its search at its own predecessor. */
  lemma WritesKeptByInsert(s: seq<Instruction>, p: nat, x: Instruction, i: nat, r: SymReg)
    requires p <= |s| && i < |s| && AllShaped(s) && x.Shaped()
    requires x.op != GetResults && p != i
    ensures AllShaped(InsertAt(s, p, x)) && InsertAt(s, p, x)[Shift(i, p)] == s[i]
    ensures Writes(InsertAt(s, p, x), Shift(i, p), r) == Writes(s, i, r)
  {
    var t := InsertAt(s, p, x);
    InsertAtShift(s, p, x, i);
    if i > 0 && s[i].op != GetResults && s[i].PccSub() {
      if i < p {
        NextGetResultsInsert(s, p, x, i - 1);
      } else {
        NextGetResultsAfterInsert(s, p, x, i - 1);
      }
      var k := NextGetResults(s, i - 1);
      assert NextGetResults(t, Shift(i, p) - 1) == Shift(k, p);
      if k >= 0 {
        InsertAtShift(s, p, x, k);
      }
    }
  }

  /** Directly in front of the call, an inserted instruction hides a
      `get_results` that was the call's predecessor: the call then writes
      the operands of the next `get_results` after it instead. */
  lemma WritesShiftedByInsertBeforeCall(s: seq<Instruction>, x: Instruction, i: nat, r: SymReg)
    requires 0 < i < |s| && AllShaped(s) && x.Shaped()
    requires x.op != GetResults && s[i].op != GetResults && s[i].PccSub()
    requires s[i - 1].op == GetResults
    ensures AllShaped(InsertAt(s, i, x)) && InsertAt(s, i, x)[i + 1] == s[i]
    ensures Writes(s, i, r) == Mentions(s[i - 1], r)
    ensures Writes(InsertAt(s, i, x), i + 1, r) ==
      (NextGetResults(s, i + 1) >= 0 && Mentions(s[NextGetResults(s, i + 1)], r))
  {
    var t := InsertAt(s, i, x);
    assert t[i + 1] == s[i];
    NextGetResultsInsert(s, i, x, i);
    var k := NextGetResults(s, i + 1);
    if k >= 0 {
      assert t[k + 1] == s[k];
    }
  }

  /** The operand scan the source repeats for each pseudo-op, from the
      last populated slot down. */
  method ScanOperands(ins: Instruction, r: SymReg) returns (b: bool)
    requires ins.Shaped()
    ensures b == Mentions(ins, r)
  {
    var i := ins.symregCount;
    while i > 0
      invariant 0 <= i <= ins.symregCount
      invariant forall m | i <= m < ins.symregCount :: ins.symregs[m] != r
    {
      i := i - 1;
      if ins.symregs[i] == r {
        return true;
      }
    }
    return false;
  }

  /** The walk along the `nextkey` chain of a keyed operand. */
  method ScanKeys(ri: SymReg, r: SymReg) returns (b: bool)
    requires ri.KeysOk()
    ensures b == ri.KeyedBy(r)
  {
    var key := ri.nextkey;
    while key != null
      invariant key != null ==> key.KeysOk()
      invariant ri.KeyedBy(r) <==> exists e :: e in ChainFrom(key) && e.reg == r
      decreases if key == null then 0 else key.keyDepth + 1
    {
      if key.reg == r {
        assert key in ChainFrom(key);
        return true;
      }
      key := key.nextkey;
    }
    return false;
  }

  /** The read-bit scan of an ordinary instruction, from the last
      populated slot down. */
  method ScanReadSlots(ins: Instruction, r: SymReg) returns (b: bool)
    requires ins.Shaped() && ReadSlotsOk(ins)
    ensures b == FlagReads(ins, r)
  {
    var f := ins.flags;
    var i := ins.symregCount;
    while i > 0
      invariant 0 <= i <= ins.symregCount
      invariant forall m | i <= m < ins.symregCount :: !SlotReads(ins, m, r)
    {
      i := i - 1;
      if ReadBit(f, i) {
        var ri := ins.symregs[i];
        if ri == r {
          assert SlotReads(ins, i, r);
          return true;
        }
        if ri.regSet == KEYED {
          b := ScanKeys(ri, r);
          if b {
            assert SlotReads(ins, i, r);
            return true;
          }
        }
      }
    }
    return false;
  }

  /** The write-bit scan of an ordinary instruction, from the first slot
      up. */
  method ScanWriteSlots(ins: Instruction, r: SymReg) returns (b: bool)
    requires ins.Shaped()
    ensures b == FlagWrites(ins, r)
  {
    var f := ins.flags;
    var j := 0;
    while j < ins.symregCount
      invariant 0 <= j <= ins.symregCount
      invariant forall m | 0 <= m < j :: !(WriteBit(f, m) && ins.symregs[m] == r)
    {
      if WriteBit(f, j) && ins.symregs[j] == r {
        return true;
      }
      j := j + 1;
    }
    return false;
  }

  /** `instruction_reads`: `ins` is the instruction at position `i` of the
      linked list `s`; the call of a calling-convention sequence walks
      `prev` from itself back to a `set_args`. */
  method InstructionReads(ins: Instruction, r: SymReg, ghost s: seq<Instruction>, ghost i: nat)
    returns (b: bool)
    requires Linked(s) && AllShaped(s) && i < |s| && s[i] == ins && ReadSlotsOk(ins)
    ensures b == Reads(s, i, r)
  {
    if ins.op == SetArgs || ins.op == SetReturns {
      b := ScanOperands(ins, r);
      return;
    } else if ins.op == GetParams || ins.op == GetResults {
      return false;
    }
    b := ScanReadSlots(ins, r);
    if b {
      return;
    }
    if ins.PccSub() {
      var cur: Instruction? := ins;
      ghost var k: int := i;
      while cur != null && cur.op != SetArgs
        invariant -1 <= k <= i
        invariant cur == (if k >= 0 then s[k] else null)
        invariant LastSetArgs(s, i) == (if k >= 0 then LastSetArgs(s, k) else -1)
        decreases k + 1
      {
        Neighbours(s, k);
        cur := cur.prev;
        k := k - 1;
      }
      if cur == null {
        return false;
      }
      b := ScanOperands(cur, r);
    }
  }

  /** `instruction_writes`: `ins` is the instruction at position `i` of
      the linked list `s`; the call of a calling-convention sequence
      steps to its predecessor and walks `next` from there to a
      `get_results`. */
  method InstructionWrites(ins: Instruction, r: SymReg, ghost s: seq<Instruction>, ghost i: nat)
    returns (b: bool)
    requires Linked(s) && AllShaped(s) && i < |s| && s[i] == ins
    ensures b == Writes(s, i, r)
  {
    if ins.op == GetResults {
      b := ScanOperands(ins, r);
      return;
    } else if ins.PccSub() {
      Neighbours(s, i);
      var cur := ins.prev;
      ghost var k: int := i - 1;
      while cur != null && cur.op != GetResults
        invariant i - 1 <= k <= |s| && (i == 0 ==> k == -1)
        invariant cur == (if 0 <= k < |s| then s[k] else null)
        invariant i > 0 ==> NextGetResults(s, i - 1) == NextGetResults(s, k)
        decreases |s| - k
      {
        Neighbours(s, k);
        cur := cur.next;
        k := k + 1;
      }
      if cur == null {
        return false;
      }
      assert NextGetResults(s, k) == k;
      b := ScanOperands(cur, r);
      return;
    }
    if ins.op == GetParams {
      b := ScanOperands(ins, r);
      return;
    } else if ins.op == SetArgs || ins.op == SetReturns {
      return false;
    }
    b := ScanWriteSlots(ins, r);
  }
}
