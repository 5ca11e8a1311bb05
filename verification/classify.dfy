/** The mnemonic and operand classifiers of the unset-register scanner
    (idapython/unset_scanner.py).  Each is a pure function of one decoded
    instruction; the lists of mnemonics are the MSP430X tables the script
    compares against, written once as sets. */
module Classify {
  import opened Ida

  /** The jump and call mnemonics `is_jump_instr` recognises. */
  const JumpMnemonics: set<string> :=
    {"call", "jc", "jhs", "jeq", "jz", "jge", "jl", "jmp", "jn", "jnc", "jlo", "jnz", "jne", "calla"}

  /** The mnemonics `is_write_instr` excludes: comparisons, flag operations, jumps,
      returns, interrupt enable/disable, `clr` and its variants, and (by the
      author's choice, to avoid false positives) push and pop. */
  const NonWriteMnemonics: set<string> :=
    {"bit", "br", "clr", "clrc", "clrn", "clrz", "cmp", "dint", "eint",
     "call", "calla", "jc", "jhs", "jeq", "jz", "jge", "jl", "jmp", "jn",
     "jnc", "jlo", "jnz", "jne", "nop", "ret", "reti", "setc", "setn", "setz",
     "tst", "bitx", "clrx", "cmpx", "tstx", "bra", "clra", "reta",
     "push", "pushx", "pushm", "pop", "popx", "tsta"}

  /** The only mnemonics `is_set_instr` can accept. */
  const SetMnemonics: set<string> := {"mov", "movx", "clr", "clrx", "and", "andx", "pop", "popx"}

  /** `is_jump_instr`: the instruction is a jump or a call.  A jump is
      never counted as a write and never defines a target. */
  function IsJumpInstr(i: Instr): (r: bool)
    ensures r ==> i.mnem in NonWriteMnemonics && i.mnem !in SetMnemonics
  {
    i.mnem in JumpMnemonics
  }

  /** `is_write_instr`: every mnemonic that is not excluded counts as a write,
      unknown mnemonics included.  Jumps, stack operations, clears,
      comparisons and returns are not writes. */
  function IsWriteInstr(i: Instr): (r: bool)
    ensures r ==> i.mnem !in JumpMnemonics
    ensures (i.mnem in {"push", "pushx", "pushm", "pop", "popx", "clr", "clrx", "clra",
                        "cmp", "cmpx", "bit", "bitx", "tst", "tstx", "tsta",
                        "ret", "reta", "reti", "br", "bra"}) ==> !r
    ensures |i.mnem| == 0 ==> r
  {
    i.mnem !in NonWriteMnemonics
  }

  /** `is_set_instr`: the instruction defines `regMem`.  A move compares its
      destination (operand 1), a clear or a pop its only operand (operand 0),
      and an `and` whose operand-0 value is zero counts whatever `regMem` is. */
  function IsSetInstr(i: Instr, regMem: string): (r: bool)
    ensures r ==> i.mnem in SetMnemonics
    ensures r && i.mnem !in {"and", "andx"} ==> regMem == i.Op(if i.mnem in {"mov", "movx"} then 1 else 0).text
    ensures i.mnem in {"mov", "movx"} ==> (r <==> i.Op(1).text == regMem)
    ensures i.mnem in {"clr", "clrx", "pop", "popx"} ==> (r <==> i.Op(0).text == regMem)
    ensures i.mnem in {"and", "andx"} ==> (r <==> i.Op(0).value == 0)
  {
    if (i.mnem == "mov" || i.mnem == "movx") && i.Op(1).text == regMem then true
    else if (i.mnem == "clr" || i.mnem == "clrx") && i.Op(0).text == regMem then true
    else if (i.mnem == "and" || i.mnem == "andx") && i.Op(0).value == 0 then true
    else if (i.mnem == "pop" || i.mnem == "popx") && i.Op(0).text == regMem then true
    else false
  }

  /** `reg_is_used`: the instruction is a write or a jump, that is, its
      mnemonic is off the exclusion list or is one of the jumps on it. */
  function RegIsUsed(i: Instr): (r: bool)
    ensures r <==> i.mnem !in NonWriteMnemonics - JumpMnemonics
  {
    IsWriteInstr(i) || IsJumpInstr(i)
  }

  /** The jump table holds fourteen distinct mnemonics. */
  lemma JumpMnemonicsCount()
    ensures |JumpMnemonics| == 14
  {
  }

  /** Every jump or call mnemonic is on the exclusion list, so no jump is a write. */
  lemma JumpIsNotWrite(i: Instr)
    ensures JumpMnemonics <= NonWriteMnemonics
  {
  }

  /** Push, pop, clear, compare, interrupt enable/disable, no-op and the
      returns never count as writes. */
  lemma PolicyNonWrites(i: Instr)
    requires i.mnem in {"push", "pushx", "pushm", "pop", "popx", "clr", "clrx", "clra",
                        "cmp", "eint", "dint", "nop", "ret", "reti", "reta"}
    ensures !IsWriteInstr(i)
    ensures !IsJumpInstr(i)
  {
  }

  /** `clr` defines its operand but is not itself a write. */
  lemma ClrSetsButDoesNotWrite(i: Instr)
    requires i.mnem == "clr"
    ensures IsSetInstr(i, i.Op(0).text)
    ensures !IsWriteInstr(i) && !RegIsUsed(i)
  {
  }

  /** Only an `and` with a zero operand-0 value defines two different targets
      at once: every other set pattern is tied to one operand's text. */
  lemma TwoTargetsMeansAndZero(i: Instr, t1: string, t2: string)
    requires t1 != t2 && IsSetInstr(i, t1) && IsSetInstr(i, t2)
    ensures i.mnem in {"and", "andx"} && i.Op(0).value == 0
  {
  }

  /** An `and` whose operand-0 value is zero defines every target. */
  lemma AndZeroSetsEveryTarget(i: Instr, t: string)
    requires i.mnem in {"and", "andx"} && i.Op(0).value == 0
    ensures IsSetInstr(i, t)
  {
  }

  /** No jump, call or branch (`br`, `bra`) ever defines a target, so the
      instruction a jump or call reference comes from is never a definition. */
  lemma JumpIsNeverSet(i: Instr, t: string)
    requires IsJumpInstr(i) || i.mnem in {"br", "bra"}
    ensures !IsSetInstr(i, t)
  {
  }
}
