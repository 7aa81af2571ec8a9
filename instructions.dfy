/** The IMCC `Instruction` node and the facts about a doubly linked run of
    instructions that the splice engine and the def/use queries share. */
module Instructions {
  import opened Operands

  /** Which calling-convention pseudo-op an instruction is, if any. The
      source recognises these four by comparing `ins->op` with entries of
      the core op table; every other op (or no op at all) is `Ordinary`. */
  datatype OpKind = Ordinary | SetArgs | SetReturns | GetParams | GetResults

  /** `type` bit marking the call instruction of a calling-convention
      sequence (ITPCCSUB, declared in compilers/imcc/instructions.h). */
  const ITPCCSUB: bv32 := 0x200_0000

  /** Bit `j` of a 32-bit word, as the source tests it with `w & (1 << j)`.
      A shift by 32 or more is undefined in C; such bits count as clear. */
  predicate Bit(w: bv32, j: nat) {
    j < 32 && w & (1 << j) != 0
  }

  /** Slot `j` is read: bit `j` of `flags`. */
  predicate ReadBit(flags: bv32, j: nat) {
    Bit(flags, j)
  }

  /** Slot `j` is written: bit `16 + j` of `flags`. */
  predicate WriteBit(flags: bv32, j: nat) {
    Bit(flags, 16 + j)
  }

  class Instruction {
    const opname: string
    const format: string
    /** Number of populated operand slots. */
    const symregCount: nat
    /** The operand slots; the node is allocated with at least one. */
    const symregs: array<SymReg?>
    /** Read bits 0..15 and write bits 16..31, one per operand slot. */
    const flags: bv32
    /** Set by the code that emits the instruction; null (`Ordinary`) here. */
    var op: OpKind
    /** Structural tags (ITPCCSUB, ...) and per-slot branch-target bits. */
    var typeMask: bv32
    /** Size of the op in code words (the op itself plus its arguments). */
    var opsize: int
    var line: int
    var prev: Instruction?
    var next: Instruction?

    /** `_mk_instruction`: a zeroed node holding copies of the opcode name
        and format, the first `n` operand references and the role flags. */
    constructor (opname: string, format: string, n: nat, r: seq<SymReg?>, flags: bv32)
      requires n <= |r|
      ensures this.opname == opname && this.format == format
      ensures symregCount == n && this.flags == flags && Shaped()
      ensures fresh(symregs) && symregs.Length == (if n > 1 then n else 1)
      ensures symregs[..n] == r[..n] && (n == 0 ==> symregs[0] == null)
      ensures op == Ordinary && typeMask == 0 && opsize == 0 && line == 0
      ensures prev == null && next == null
    {
      var slots := new SymReg?[if n > 1 then n else 1](_ => null);
      var i := 0;
      while i < n
        invariant 0 <= i <= n
        invariant slots[..i] == r[..i]
        invariant n == 0 ==> slots[0] == null
      {
        slots[i] := r[i];
        i := i + 1;
      }
      this.opname := opname;
      this.format := format;
      this.symregCount := n;
      this.symregs := slots;
      this.flags := flags;
      this.op := Ordinary;
      this.typeMask := 0;
      this.opsize := 0;
      this.line := 0;
      this.prev := null;
      this.next := null;
    }

    /** The populated slots lie inside the allocated operand array. */
    predicate Shaped() {
      symregCount <= symregs.Length
    }

    /** The instruction is the call of a calling-convention sequence. */
    predicate PccSub()
      reads this
    {
      typeMask & ITPCCSUB != 0
    }
  }

  /** Every instruction of `s` is `Shaped`. */
  predicate AllShaped(s: seq<Instruction>) {
    forall k :: 0 <= k < |s| ==> s[k].Shaped()
  }

  /** The operand arrays of the instructions of `s`. */
  ghost function SlotArrays(s: seq<Instruction>): set<object> {
    set k | 0 <= k < |s| :: s[k].symregs
  }

  /** `s[k]` under a name of its own: `Distinct` compares two positions
      only where a proof names them through `Nth`, not for every pair of
      positions that happens to be mentioned. */
  function Nth(s: seq<Instruction>, k: nat): Instruction
    requires k < |s|
  {
    s[k]
  }

  /** No instruction occurs twice in `s`. */
  ghost predicate Distinct(s: seq<Instruction>) {
    forall a, b {:trigger Nth(s, a), Nth(s, b)} :: 0 <= a < b < |s| ==> Nth(s, a) != Nth(s, b)
  }

  /** Two different positions of a list without repetitions hold
      different instructions. */
  lemma Apart(s: seq<Instruction>, a: nat, b: nat)
    requires Distinct(s) && a < |s| && b < |s| && a != b
    ensures s[a] != s[b]
  {
    if a < b {
      assert Nth(s, a) != Nth(s, b);
    } else {
      assert Nth(s, b) != Nth(s, a);
    }
  }

  /** The instruction after position `k` of `s`, or null at the end. */
  function After(s: seq<Instruction>, k: nat): Instruction?
    requires k < |s|
  {
    if k + 1 < |s| then s[k + 1] else null
  }

  /** The instruction before position `k` of `s`, or null at the start. */
  function Before(s: seq<Instruction>, k: nat): Instruction?
    requires k < |s|
  {
    if k > 0 then s[k - 1] else null
  }

  /** Each `next` leads to the following instruction; the last one's is null. */
  ghost predicate ForwardLinked(s: seq<Instruction>)
    reads s
  {
    forall k {:trigger s[k].next} :: 0 <= k < |s| ==> s[k].next == After(s, k)
  }

  /** Each `prev` but the first one's leads back to the preceding instruction. */
  ghost predicate BackwardLinked(s: seq<Instruction>)
    reads s
  {
    forall k {:trigger s[k].prev} :: 0 < k < |s| ==> s[k].prev == Before(s, k)
  }

  /** All links of `s` agree with its order, except possibly the first
      instruction's `prev`. */
  ghost predicate Threaded(s: seq<Instruction>)
    reads s
  {
    Distinct(s) && ForwardLinked(s) && BackwardLinked(s)
  }

  /** `s` is a complete doubly linked list: walking `next` from `s[0]`
      visits `s` in order and walking `prev` from the last visits it in
      reverse, both ending at null. */
  ghost predicate Linked(s: seq<Instruction>)
    reads s
  {
    Threaded(s) && (s != [] ==> s[0].prev == null)
  }

  /** The links of a member of a linked list lead to its neighbours. */
  lemma Neighbours(s: seq<Instruction>, k: nat)
    requires Linked(s) && k < |s|
    ensures s[k].next == After(s, k) && s[k].prev == Before(s, k)
  {
  }

  /** Position of the first occurrence of `x` in `s`. */
  function IndexOf(s: seq<Instruction>, x: Instruction): (k: nat)
    requires x in s
    ensures k < |s| && s[k] == x && x !in s[..k]
  {
    if s[0] == x then 0 else 1 + IndexOf(s[1..], x)
  }

  /** In a list without repetitions, the position of `s[k]` is `k`. */
  lemma IndexOfDistinct(s: seq<Instruction>, k: nat)
    requires Distinct(s) && k < |s|
    ensures IndexOf(s, s[k]) == k
  {
    var j := IndexOf(s, s[k]);
    if j != k {
      Apart(s, j, k);
    }
  }
}
