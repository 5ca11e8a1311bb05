/** An immutable snapshot of the parts of an IDA database that the MSP430
    scanners query.

    The scanners only ever read the database: the mnemonic and first operands
    of an instruction, three flag bits, the linear order of heads and the code
    cross-references.  Everything here is a plain value, so every query is a
    pure function of the snapshot.  The behaviour of IDA's own `PrevHead`,
    `NextHead`, `CodeRefsTo` and `CodeRefsFrom` is not modelled: the snapshot
    simply carries them as functions.
 */
module Ida {

  /** `None` stands for IDA's BADADDR. */
  datatype Option<+T> = None | Some(value: T)

  /** An effective address. */
  type Addr = nat

  /** Operand types as IDA numbers them (`o_void`, `o_reg`, `o_mem`). */
  const VoidOperand: int := 0
  const RegisterOperand: int := 1
  const MemoryOperand: int := 2
  /** `o_imm`: an immediate value. */
  const ImmediateOperand: int := 5

  /** One operand: its IDA type, the value `GetOperandValue` reports and the
      text `GetOpnd` renders. */
  datatype Operand = Operand(kind: int, value: int, text: string)

  /** What IDA reports for an operand slot the instruction does not use:
      type `o_void`, value -1 and empty text. */
  const Void: Operand := Operand(VoidOperand, -1, "")

  /** A decoded head: mnemonic, operands in order, and the flag bits read by
      `isCode`, `isRef` (some code reference points here) and `isFlow` (the
      previous instruction falls through to this one). */
  datatype Instr = Instr(mnem: string, ops: seq<Operand>, isCode: bool, isRef: bool, isFlow: bool)
  {
    /** The n-th operand, or `Void` beyond the last one. */
    function Op(n: nat): (o: Operand)
      ensures n < |ops| ==> o == ops[n]
      ensures n >= |ops| ==> o.kind == VoidOperand && o.text == ""
    {
      if n < |ops| then ops[n] else Void
    }
  }

  /** What every query reports for an address that holds no head: no flags,
      empty mnemonic, no operands. */
  const Unexplored: Instr := Instr("", [], false, false, false)

  /** The database snapshot.
      - `instrs` maps each head to its decoded instruction;
      - `prevHead(ea, minEa)` is IDA's `PrevHead`: the head before `ea`, not below `minEa`;
      - `nextHead(ea, maxEa)` is IDA's `NextHead`: the head after `ea`, below `maxEa`;
      - `refsTo(ea)` is `CodeRefsTo(ea, 0)`: jump and call sources, without fall-through;
      - `refsFrom(ea)` is `CodeRefsFrom(ea, 1)`: every successor, fall-through included. */
  datatype Database = Database(
    instrs: map<Addr, Instr>,
    prevHead: (Addr, Addr) -> Option<Addr>,
    nextHead: (Addr, Addr) -> Option<Addr>,
    refsTo: Addr -> seq<Addr>,
    refsFrom: Addr -> seq<Addr>)
  {
    /** The instruction at `ea`, or `Unexplored` when `ea` is not a head. */
    function At(ea: Addr): (i: Instr)
      ensures ea !in instrs ==> !i.isCode && !i.isRef && !i.isFlow
      ensures ea in instrs ==> i == instrs[ea]
    {
      if ea in instrs then instrs[ea] else Unexplored
    }

    function PrevHead(ea: Addr, minEa: Addr): Option<Addr> { prevHead(ea, minEa) }

    function NextHead(ea: Addr, maxEa: Addr): Option<Addr> { nextHead(ea, maxEa) }

    function CodeRefsTo(ea: Addr): seq<Addr> { refsTo(ea) }

    function CodeRefsFrom(ea: Addr): seq<Addr> { refsFrom(ea) }
  }
}
