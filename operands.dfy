/** Operands (SymReg) as far as the instruction list needs them: their
    identity, their register-set tag, and for keyed operands the chain of
    key entries linked through `nextkey`, each naming its backing register
    in `reg`. Operands are created by the front end and never owned by an
    instruction; here they are plain references with fixed fields. */
module Operands {

  /** Register-set tag of a keyed (composite) operand. */
  const KEYED: char := 'K'

  class SymReg {
    /** The register set: 'I', 'N', 'S', 'P', or 'K' for a keyed operand. */
    const regSet: char
    /** The next entry of the key chain, or null at its end. */
    const nextkey: SymReg?
    /** For a key entry: the register it stands for. */
    const reg: SymReg?
    /** Length of the key chain behind this operand; it only serves as a
        termination measure for walks along `nextkey`. */
    ghost const keyDepth: nat

    /** The `nextkey` chain is finite (it cannot loop back on itself). */
    ghost predicate KeysOk()
      decreases keyDepth
    {
      nextkey != null ==> nextkey.keyDepth < keyDepth && nextkey.KeysOk()
    }

    /** The entries reached by following `nextkey` from this operand, in order. */
    ghost function KeyChain(): seq<SymReg>
      requires KeysOk()
    {
      ChainFrom(nextkey)
    }

    /** Some entry of the key chain is backed by register `r`. */
    ghost predicate KeyedBy(r: SymReg)
      requires KeysOk()
    {
      exists e :: e in KeyChain() && e.reg == r
    }
  }

  /** The key chain starting at `key` itself: `key`, its `nextkey`, and so
      on until null. */
  ghost function ChainFrom(key: SymReg?): seq<SymReg>
    requires key != null ==> key.KeysOk()
    decreases if key == null then 0 else key.keyDepth + 1
  {
    if key == null then [] else [key] + ChainFrom(key.nextkey)
  }
}
