/** Small concrete databases and what the scanners return on them: a
    straight run and a join for the backward search, a handler on which the
    script's forward walker misses an interrupt enable, and one on which it
    walks past an interrupt return. */
module Scenarios {
  import opened Ida
  import opened UnsetScanner
  import opened ReentrantScanner
  import opened ReentrantScannerFixed

  /** A register operand: IDA reports the register number as its value. */
  function Reg(name: string, n: int): Operand { Operand(RegisterOperand, n, name) }
  function Imm(v: int): Operand { Operand(ImmediateOperand, v, "#") }
  function Mem(a: int): Operand { Operand(MemoryOperand, a, "&") }

  /** Heads 1..n laid out one after another, each falling through to the next. */
  function Linear(instrs: map<Addr, Instr>, n: Addr): Database
  {
    Database(
      instrs,
      (ea: Addr, minEa: Addr) => if 1 < ea <= n + 1 && minEa <= ea - 1 then Some(ea - 1) else None,
      (ea: Addr, maxEa: Addr) => if 1 <= ea < n && ea + 1 < maxEa then Some(ea + 1) else None,
      (ea: Addr) => [],
      (ea: Addr) => if 1 <= ea < n then [ea + 1] else [])
  }

  /** `clr R5` at 2, three `nop`s, and the candidate `mov R5, &0x200` at 6. */
  function ClearThenUse(): Database
  {
    Linear(map[
      1 := Instr("mov", [Imm(5), Reg("R4", 4)], true, false, false),
      2 := Instr("clr", [Reg("R5", 5)], true, false, true),
      3 := Instr("nop", [], true, false, true),
      4 := Instr("nop", [], true, false, true),
      5 := Instr("nop", [], true, false, true),
      6 := Instr("mov", [Reg("R5", 5), Mem(0x200)], true, false, true)], 6)
  }

  /** The definition four instructions back is found with a budget of ten. */
  lemma DefinitionFoundWithinBudget()
    ensures FindSetInstr(ClearThenUse(), 6, 1, 10, "R5") == SetSearch(true, Some(2))
  {
    var db := ClearThenUse();
    assert db.PrevHead(6, 1) == Some(5) && db.PrevHead(5, 1) == Some(4);
    assert db.PrevHead(4, 1) == Some(3) && db.PrevHead(3, 1) == Some(2);
    assert ScanBack(db, Some(2), 1, 7, "R5") == SetSearch(true, Some(2));
    assert ScanBack(db, Some(3), 1, 8, "R5") == SetSearch(true, Some(2));
    assert ScanBack(db, Some(4), 1, 9, "R5") == SetSearch(true, Some(2));
  }

  /** With a budget of three the walk stops one short of it. */
  lemma DefinitionMissedOutsideBudget()
    ensures FindSetInstr(ClearThenUse(), 6, 1, 3, "R5") == NotFound
  {
    var db := ClearThenUse();
    assert db.PrevHead(6, 1) == Some(5) && db.PrevHead(5, 1) == Some(4);
    assert db.PrevHead(4, 1) == Some(3) && db.PrevHead(3, 1) == Some(2);
    assert ScanBack(db, Some(3), 1, 1, "R5") == NotFound;
    assert ScanBack(db, Some(4), 1, 2, "R5") == NotFound;
  }

  /** On this straight-line database the head a search starts from is not
      examined, even when it defines the target itself: the walk starts at
      the previous head and never comes back. */
  lemma StartHeadIsNotExamined()
    ensures FindSetInstr(ClearThenUse(), 2, 1, 10, "R5") == NotFound
  {
    var db := ClearThenUse();
    assert db.PrevHead(2, 1) == Some(1) && db.PrevHead(1, 1) == None;
    assert ScanBack(db, Some(1), 1, 10, "R5") == NotFound;
  }

  /** A join: the block head at 5 is entered by jumps from 2 and from 4; only
      the path through 4 clears R5, at 3, which the jump at 1 leads to. */
  function Join(): Database
  {
    Database(
      map[
        1 := Instr("jmp", [Imm(3)], true, false, false),
        2 := Instr("jmp", [Imm(5)], true, false, true),
        3 := Instr("clr", [Reg("R5", 5)], true, true, false),
        4 := Instr("jmp", [Imm(5)], true, false, true),
        5 := Instr("add", [Reg("R6", 6), Reg("R7", 7)], true, true, false),
        6 := Instr("mov", [Reg("R5", 5), Mem(0x200)], true, false, true)],
      (ea: Addr, minEa: Addr) => if 1 < ea <= 7 && minEa <= ea - 1 then Some(ea - 1) else None,
      (ea: Addr, maxEa: Addr) => if 1 <= ea < 6 && ea + 1 < maxEa then Some(ea + 1) else None,
      (ea: Addr) => if ea == 5 then [2, 4] else if ea == 3 then [1] else [],
      (ea: Addr) => if ea == 2 || ea == 4 then [5] else if ea == 1 then [3] else if ea == 3 || ea == 5 then [ea + 1] else [])
  }

  /** The first reference finds nothing, the second finds the clear. */
  lemma JoinFindsDefinitionOnOnePath()
    ensures FindSetInstr(Join(), 6, 1, 10, "R5") == SetSearch(true, Some(3))
  {
    var db := Join();
    assert db.PrevHead(6, 1) == Some(5) && db.PrevHead(2, 1) == Some(1);
    assert db.PrevHead(1, 1) == None && db.PrevHead(4, 1) == Some(3);
    assert db.CodeRefsTo(5) == [2, 4];
    assert FindSetInstr(db, 2, 1, 9, "R5") == NotFound by {
      assert ScanBack(db, Some(1), 1, 9, "R5") == NotFound;
    }
    assert FindSetInstr(db, 4, 1, 9, "R5") == SetSearch(true, Some(3));
    assert [2, 4][1..] == [4];
    assert ScanRefs(db, [4], 1, 10, "R5") == SetSearch(true, Some(3));
    assert ScanRefs(db, [2, 4], 1, 10, "R5") == SetSearch(true, Some(3));
  }

  /** A loop: the block head at 4 is entered only by the jump at 6, and the
      candidate `mov R5, R5` at 5 sits between them. */
  function BackLoop(): Database
  {
    Database(
      map[
        4 := Instr("add", [Reg("R6", 6), Reg("R7", 7)], true, true, false),
        5 := Instr("mov", [Reg("R5", 5), Reg("R5", 5)], true, false, true),
        6 := Instr("jmp", [Imm(4)], true, false, true)],
      (ea: Addr, minEa: Addr) => if 4 < ea <= 7 && minEa <= ea - 1 then Some(ea - 1) else None,
      (ea: Addr, maxEa: Addr) => if 4 <= ea < 6 && ea + 1 < maxEa then Some(ea + 1) else None,
      (ea: Addr) => if ea == 4 then [6] else [],
      (ea: Addr) => if ea == 6 then [4] else if ea == 4 || ea == 5 then [ea + 1] else [])
  }

  /** The search from 5 starts at 4, fans out to the jump at 6 and steps back
      from there onto 5 itself: the candidate is cleared by its own move. */
  lemma BackwardLoopReachesStartHead()
    ensures FindSetInstr(BackLoop(), 5, 4, 3, "R5") == SetSearch(true, Some(5))
  {
    var db := BackLoop();
    assert db.PrevHead(5, 4) == Some(4) && db.PrevHead(6, 4) == Some(5);
    assert db.CodeRefsTo(4) == [6];
    assert FindSetInstr(db, 6, 4, 2, "R5") == SetSearch(true, Some(5));
    assert ScanRefs(db, [6], 4, 3, "R5") == SetSearch(true, Some(5));
  }

  /** A spin loop `nop`, `bis #8, SR`, `jmp 0`. */
  function ForwardLoop(): Database
  {
    Database(
      map[
        0 := Instr("nop", [], true, false, false),
        1 := Instr("bis", [Imm(8), Reg("SR", 2)], true, false, true),
        2 := Instr("jmp", [Imm(0)], true, false, true)],
      (ea: Addr, minEa: Addr) => if 0 < ea <= 3 && minEa <= ea - 1 then Some(ea - 1) else None,
      (ea: Addr, maxEa: Addr) => if ea < 2 && ea + 1 < maxEa then Some(ea + 1) else None,
      (ea: Addr) => if ea == 0 then [2] else [],
      (ea: Addr) => if ea == 2 then [0] else if ea < 2 then [ea + 1] else [])
  }

  /** The forward walk from 1 examines 2, recurses on the jump target 0 and
      examines 1, the address it was called with. */
  lemma ForwardLoopReachesStartHead()
    ensures FindIeInstr(ForwardLoop(), 1, 3, 0, 3) == [1]
  {
    var db := ForwardLoop();
    assert db.NextHead(1, 3) == Some(2) && db.NextHead(0, 3) == Some(1);
    assert db.CodeRefsFrom(2) == [0] && db.CodeRefsFrom(1) == [2];
    assert PotentialIeSetInstr(db.At(1), 0) && !PotentialIeSetInstr(db.At(2), 0);
    assert FindIeInstr(db, 2, 3, 0, 1) == [];
    assert FindIeRefs(db, [2], 3, 0, 2) == [];
    assert FindIeInstr(db, 0, 3, 0, 2) == [1];
    assert FindIeRefs(db, [0], 3, 0, 3) == [1];
  }

  /** An interrupt handler of five instructions whose third enables the
      interrupt through the register at address 0. */
  function Handler(): Database
  {
    Linear(map[
      1 := Instr("push", [Reg("R15", 15)], true, false, false),
      2 := Instr("mov", [Imm(0), Reg("R15", 15)], true, false, true),
      3 := Instr("bis", [Imm(1), Mem(0)], true, false, true),
      4 := Instr("pop", [Reg("R15", 15)], true, false, true),
      5 := Instr("reti", [], true, false, true)], 5)
  }

  /** As written, the forward walk from the entry examines 2, recurses on its
      fall-through successor 3 and examines 4, then recurses on 5 and finds no
      head after it: the enabling instruction at 3 is never examined. */
  lemma AsWrittenSkipsSuccessor()
    ensures Emittable(Handler(), 3, 0)
    ensures FindIeInstr(Handler(), 1, 6, 0, 10) == []
  {
    var db := Handler();
    assert db.NextHead(1, 6) == Some(2) && db.NextHead(3, 6) == Some(4) && db.NextHead(5, 6) == None;
    assert db.CodeRefsFrom(2) == [3] && db.CodeRefsFrom(4) == [5];
    assert FindIeInstr(db, 5, 6, 0, 8) == [];
    assert FindIeRefs(db, [5], 6, 0, 9) == [];
    assert FindIeInstr(db, 3, 6, 0, 9) == [];
    assert FindIeRefs(db, [3], 6, 0, 10) == [];
  }

  /** Two `nop`s, the interrupt return, and after it `bis #8, SR`, which
      sets the global interrupt enable bit. */
  function PastReti(): Database
  {
    Linear(map[
      1 := Instr("nop", [], true, false, false),
      2 := Instr("nop", [], true, false, true),
      3 := Instr("reti", [], true, false, true),
      4 := Instr("bis", [Imm(8), Reg("SR", 2)], true, false, true)], 4)
  }

  /** As written, the walk from 1 examines 2, recurses on the `reti` at 3 and
      examines 4 after it, so the instruction behind the interrupt return is
      reported; the corrected walker stops at the `reti`. */
  lemma AsWrittenCrossesReti()
    ensures !Live(PastReti().At(3)) && PastReti().CodeRefsFrom(2) == [3]
    ensures FindIeInstr(PastReti(), 1, 5, 0, 10) == [4]
    ensures FindIeFixed(PastReti(), 1, 0, 10) == []
  {
    var db := PastReti();
    assert db.NextHead(1, 5) == Some(2) && db.NextHead(3, 5) == Some(4);
    assert db.CodeRefsFrom(2) == [3] && db.CodeRefsFrom(4) == [];
    assert PotentialIeSetInstr(db.At(4), 0);
    assert FindIeInstr(db, 3, 5, 0, 9) == [4];
    assert FindIeRefs(db, [3], 5, 0, 10) == [4];
    assert FindIeFixed(db, 3, 0, 8) == [];
    FixedStep(db, 2, 3, 0, 9);
    FixedStep(db, 1, 2, 0, 10);
  }

  /** One step of the corrected walk at a live head with a single successor. */
  lemma FixedStep(db: Database, ea: Addr, s: Addr, ieRegAddr: int, maxDepth: nat)
    requires maxDepth > 0 && Live(db.At(ea)) && db.CodeRefsFrom(ea) == [s]
    ensures FindIeFixed(db, ea, ieRegAddr, maxDepth)
            == (if PotentialIeSetInstr(db.At(ea), ieRegAddr) then [ea] else []) + FindIeFixed(db, s, ieRegAddr, maxDepth - 1)
  {
    assert [s][1..] == [];
    assert FindIeFixedRefs(db, [s], ieRegAddr, maxDepth) == FindIeFixed(db, s, ieRegAddr, maxDepth - 1) + [];
  }

  /** Heads 1 to 4 of both handlers are live and fall through to the next;
      head 5 is the `reti`. */
  lemma HandlerShape(db: Database)
    requires db == Handler() || db == QuietHandler()
    ensures forall k: Addr :: 1 <= k < 5 ==> Live(db.At(k)) && db.CodeRefsFrom(k) == [k + 1]
    ensures !Live(db.At(5))
    ensures !PotentialIeSetInstr(db.At(1), 0) && !PotentialIeSetInstr(db.At(2), 0) && !PotentialIeSetInstr(db.At(4), 0)
  {
  }

  /** The corrected walk reports exactly the enabling instruction. */
  lemma FixedFindsEnable()
    ensures FindIeFixed(Handler(), 1, 0, 10) == [3]
  {
    var db := Handler();
    HandlerShape(db);
    assert PotentialIeSetInstr(db.At(3), 0);
    assert FindIeFixed(db, 5, 0, 6) == [];
    FixedStep(db, 4, 5, 0, 7);
    FixedStep(db, 3, 4, 0, 8);
    FixedStep(db, 2, 3, 0, 9);
    FixedStep(db, 1, 2, 0, 10);
  }

  /** The same handler with a `nop` in place of the enable. */
  function QuietHandler(): Database
  {
    Handler().(instrs := Handler().instrs[3 := Instr("nop", [], true, false, true)])
  }

  /** A handler that never touches the register: the script's walker reports
      nothing. */
  lemma QuietHandlerReportsNothing()
    ensures FindIeInstr(QuietHandler(), 1, 6, 0, 10) == []
  {
    var db := QuietHandler();
    assert db.NextHead(1, 6) == Some(2) && db.NextHead(3, 6) == Some(4) && db.NextHead(5, 6) == None;
    assert db.CodeRefsFrom(2) == [3] && db.CodeRefsFrom(4) == [5];
    assert FindIeInstr(db, 5, 6, 0, 8) == [];
    assert FindIeRefs(db, [5], 6, 0, 9) == [];
    assert FindIeInstr(db, 3, 6, 0, 9) == [];
    assert FindIeRefs(db, [3], 6, 0, 10) == [];
  }

  /** The corrected walker reports nothing on it either. */
  lemma QuietHandlerFixedReportsNothing()
    ensures FindIeFixed(QuietHandler(), 1, 0, 10) == []
  {
    var db := QuietHandler();
    HandlerShape(db);
    assert !PotentialIeSetInstr(db.At(3), 0);
    assert FindIeFixed(db, 5, 0, 6) == [];
    FixedStep(db, 4, 5, 0, 7);
    FixedStep(db, 3, 4, 0, 8);
    FixedStep(db, 2, 3, 0, 9);
    FixedStep(db, 1, 2, 0, 10);
  }
}
