/** The reentrant-interrupt scanner (idapython/reentrant_int_scanner.py).

    From an interrupt handler the forward walker follows every successor up to
    a depth limit and emits each instruction that may re-enable interrupts:
    one that names the peripheral interrupt-enable register as a memory
    operand, or the status register SR as a register operand.  Each call
    examines the head AFTER the address it is given, exactly as the script
    does, and a path ends only when that examined head is non-code or `reti`.
    A `reti` reached as a successor is recursed on but never examined, so the
    walk goes on past it.  Nothing is memoised. */
module ReentrantScanner {
  import opened Ida

  /** One operand refers to the interrupt-enable register at `ieRegAddr`
      (a memory operand with that value) or to SR (a register operand whose
      text is exactly "SR"). */
  predicate RefersToIe(o: Operand, ieRegAddr: int)
  {
    (o.kind == MemoryOperand && o.value == ieRegAddr) || (o.kind == RegisterOperand && o.text == "SR")
  }

  /** `potential_ie_set_instr`: the script's four checks, in its order,
      on operands 0 and 1 only.  Together they say that operand 0 or
      operand 1 refers to the interrupt-enable register or to SR. */
  function PotentialIeSetInstr(i: Instr, ieRegAddr: int): (r: bool)
    ensures r <==> RefersToIe(i.Op(0), ieRegAddr) || RefersToIe(i.Op(1), ieRegAddr)
  {
    var o0 := i.Op(0);
    var o1 := i.Op(1);
    if o0.kind == MemoryOperand && o0.value == ieRegAddr then true
    else if o1.kind == MemoryOperand && o1.value == ieRegAddr then true
    else if o0.kind == RegisterOperand && o0.text == "SR" then true
    else if o1.kind == RegisterOperand && o1.text == "SR" then true
    else false
  }

  /** Operand order does not matter to the check: two instructions whose
      operands 0 and 1 are exchanged get the same answer. */
  lemma PotentialIsSymmetric(i: Instr, j: Instr, ieRegAddr: int)
    requires j.Op(0) == i.Op(1) && j.Op(1) == i.Op(0)
    ensures PotentialIeSetInstr(j, ieRegAddr) == PotentialIeSetInstr(i, ieRegAddr)
  {
  }

  /** Operands past index 1 are never inspected. */
  lemma PotentialIgnoresLaterOperands(i: Instr, extra: seq<Operand>, ieRegAddr: int)
    requires |i.ops| >= 2
    ensures PotentialIeSetInstr(i.(ops := i.ops + extra), ieRegAddr) == PotentialIeSetInstr(i, ieRegAddr)
  {
    var j := i.(ops := i.ops + extra);
    assert j.Op(0) == i.Op(0) && j.Op(1) == i.Op(1);
  }

  /** An instruction a forward path may pass: code, and not the interrupt return. */
  predicate Live(i: Instr)
  {
    i.isCode && i.mnem != "reti"
  }

  /** What the walker may emit: a live instruction that passes the check. */
  predicate Emittable(db: Database, ea: Addr, ieRegAddr: int)
  {
    Live(db.At(ea)) && PotentialIeSetInstr(db.At(ea), ieRegAddr)
  }

  /** `find_ie_instr(head, seg_ea, ie_reg_addr, max_depth)` as the sequence of
      addresses it prints.  It examines `NextHead(head)` only; a BADADDR,
      non-code or `reti` head ends the path; otherwise a match is emitted
      before anything found through the successors, which are followed in
      `CodeRefsFrom` order with one less unit of depth. */
  function FindIeInstr(db: Database, head: Addr, segEnd: Addr, ieRegAddr: int, maxDepth: nat): (r: seq<Addr>)
    decreases maxDepth, 1, 0
    ensures forall k :: 0 <= k < |r| ==> Emittable(db, r[k], ieRegAddr)
    ensures maxDepth == 0 ==> r == []
  {
    if maxDepth == 0 then []
    else match db.NextHead(head, segEnd)
      case None => []
      case Some(ea) =>
        var i := db.At(ea);
        if !i.isCode || i.mnem == "reti" then []
        else
          (if PotentialIeSetInstr(i, ieRegAddr) then [ea] else [])
          + FindIeRefs(db, db.CodeRefsFrom(ea), segEnd, ieRegAddr, maxDepth)
  }

  /** The `for ref in CodeRefsFrom(curr_ea, 1)` loop of a call made with
      `maxDepth`: each successor is walked with `maxDepth - 1`. */
  function FindIeRefs(db: Database, refs: seq<Addr>, segEnd: Addr, ieRegAddr: int, maxDepth: nat): (r: seq<Addr>)
    requires maxDepth > 0
    decreases maxDepth, 0, |refs|
    ensures forall k :: 0 <= k < |r| ==> Emittable(db, r[k], ieRegAddr)
  {
    if |refs| == 0 then []
    else FindIeInstr(db, refs[0], segEnd, ieRegAddr, maxDepth - 1) + FindIeRefs(db, refs[1..], segEnd, ieRegAddr, maxDepth)
  }

  // ---------------------------------------------------------------------------
  // Reference definition: which instructions the walker reaches
  // ---------------------------------------------------------------------------

  /** `ea` is examined by the call on `head` with `depth`, or by one of the
      calls it makes: the next head is live, and `ea` is that head or is
      examined from one of its successors with one less unit of depth.  The
      height of the call tree is therefore at most `depth`. */
  predicate Reaches(db: Database, head: Addr, segEnd: Addr, ea: Addr, depth: nat)
    decreases depth
  {
    && depth > 0
    && db.NextHead(head, segEnd).Some?
    && var cur := db.NextHead(head, segEnd).value;
    && Live(db.At(cur))
    && (cur == ea || exists s :: s in db.CodeRefsFrom(cur) && Reaches(db, s, segEnd, ea, depth - 1))
  }

  /** An address is printed exactly when the walk reaches it and it passes
      the check: the output holds every match on every explored path and
      nothing else. */
  lemma {:induction false} FindIeEmitsReachedMatches(db: Database, head: Addr, segEnd: Addr, ieRegAddr: int, maxDepth: nat, ea: Addr)
    ensures ea in FindIeInstr(db, head, segEnd, ieRegAddr, maxDepth)
            <==> Reaches(db, head, segEnd, ea, maxDepth) && PotentialIeSetInstr(db.At(ea), ieRegAddr)
    decreases maxDepth, 1, 0
  {
    if maxDepth > 0 && db.NextHead(head, segEnd).Some? {
      var cur := db.NextHead(head, segEnd).value;
      if Live(db.At(cur)) {
        FindIeRefsEmitsReachedMatches(db, db.CodeRefsFrom(cur), segEnd, ieRegAddr, maxDepth, ea);
      }
    }
  }

  lemma {:induction false} FindIeRefsEmitsReachedMatches(db: Database, refs: seq<Addr>, segEnd: Addr, ieRegAddr: int, maxDepth: nat, ea: Addr)
    requires maxDepth > 0
    ensures ea in FindIeRefs(db, refs, segEnd, ieRegAddr, maxDepth)
            <==> (exists s :: s in refs && Reaches(db, s, segEnd, ea, maxDepth - 1)) && PotentialIeSetInstr(db.At(ea), ieRegAddr)
    decreases maxDepth, 0, |refs|
  {
    if |refs| > 0 {
      FindIeEmitsReachedMatches(db, refs[0], segEnd, ieRegAddr, maxDepth - 1, ea);
      FindIeRefsEmitsReachedMatches(db, refs[1..], segEnd, ieRegAddr, maxDepth, ea);
      if ea in FindIeInstr(db, refs[0], segEnd, ieRegAddr, maxDepth - 1) {
        assert refs[0] in refs;
      } else if ea in FindIeRefs(db, refs[1..], segEnd, ieRegAddr, maxDepth) {
        var s :| s in refs[1..] && Reaches(db, s, segEnd, ea, maxDepth - 1);
        assert s in refs;
      }
      if exists s :: s in refs && Reaches(db, s, segEnd, ea, maxDepth - 1) {
        var s :| s in refs && Reaches(db, s, segEnd, ea, maxDepth - 1);
        if s != refs[0] {
          assert s in refs[1..];
        }
      }
    }
  }

  /** A call whose examined head (the next head) is non-code or `reti` emits
      nothing and follows no successor.  Only the examined head is checked: a
      `reti` that is a successor is passed over (`Scenarios.AsWrittenCrossesReti`). */
  lemma StopsAtRetiOrData(db: Database, head: Addr, segEnd: Addr, ieRegAddr: int, maxDepth: nat, ea: Addr)
    requires db.NextHead(head, segEnd) == Some(ea) && !Live(db.At(ea))
    ensures FindIeInstr(db, head, segEnd, ieRegAddr, maxDepth) == []
    ensures forall x :: !Reaches(db, head, segEnd, x, maxDepth)
  {
  }

  /** Preorder: a match at the examined head is printed before anything found
      through its successors. */
  lemma MatchAtHeadComesFirst(db: Database, head: Addr, segEnd: Addr, ieRegAddr: int, maxDepth: nat, ea: Addr)
    requires maxDepth > 0 && db.NextHead(head, segEnd) == Some(ea) && Emittable(db, ea, ieRegAddr)
    ensures var r := FindIeInstr(db, head, segEnd, ieRegAddr, maxDepth); |r| > 0 && r[0] == ea
  {
  }

  /** Successors are walked in `CodeRefsFrom` order: the output for a list of
      successors is the output for its first part followed by that of the rest. */
  lemma {:induction false} FindIeRefsConcat(db: Database, a: seq<Addr>, b: seq<Addr>, segEnd: Addr, ieRegAddr: int, maxDepth: nat)
    requires maxDepth > 0
    ensures FindIeRefs(db, a + b, segEnd, ieRegAddr, maxDepth)
            == FindIeRefs(db, a, segEnd, ieRegAddr, maxDepth) + FindIeRefs(db, b, segEnd, ieRegAddr, maxDepth)
    decreases |a|
  {
    if |a| == 0 {
      assert a + b == b;
    } else {
      assert (a + b)[0] == a[0];
      assert (a + b)[1..] == a[1..] + b;
      FindIeRefsConcat(db, a[1..], b, segEnd, ieRegAddr, maxDepth);
    }
  }

  /** No visited set: a match reachable from two successors is printed once
      for each of them, so an address reached along two paths is reported at
      least twice (whether or not the two successors are the same address). */
  lemma ReachedTwiceIsPrintedTwice(db: Database, a: Addr, b: Addr, segEnd: Addr, ieRegAddr: int, maxDepth: nat, ea: Addr)
    requires maxDepth > 0
    requires Reaches(db, a, segEnd, ea, maxDepth - 1) && Reaches(db, b, segEnd, ea, maxDepth - 1)
    requires PotentialIeSetInstr(db.At(ea), ieRegAddr)
    ensures multiset(FindIeRefs(db, [a, b], segEnd, ieRegAddr, maxDepth))[ea] >= 2
  {
    FindIeEmitsReachedMatches(db, a, segEnd, ieRegAddr, maxDepth - 1, ea);
    FindIeEmitsReachedMatches(db, b, segEnd, ieRegAddr, maxDepth - 1, ea);
    FindIeRefsConcat(db, [a], [b], segEnd, ieRegAddr, maxDepth);
    assert [a] + [b] == [a, b];
    assert [a][1..] == [] && [b][1..] == [];
    var ra := FindIeInstr(db, a, segEnd, ieRegAddr, maxDepth - 1);
    var rb := FindIeInstr(db, b, segEnd, ieRegAddr, maxDepth - 1);
    assert FindIeRefs(db, [a], segEnd, ieRegAddr, maxDepth) == ra + [];
    assert FindIeRefs(db, [b], segEnd, ieRegAddr, maxDepth) == rb + [];
    assert multiset(ra + rb) == multiset(ra) + multiset(rb);
  }

  /** The worst-case output length with depth `depth` when no instruction has
      more than `fanOut` successors. */
  function ForwardBound(fanOut: nat, depth: nat): nat
  {
    if depth == 0 then 0 else 1 + fanOut * ForwardBound(fanOut, depth - 1)
  }

  /** The walk is finite in numbers as well: with at most `fanOut` successors
      per instruction it prints at most `ForwardBound(fanOut, maxDepth)` lines,
      whatever loops the handler contains. */
  lemma {:induction false} FindIeBounded(db: Database, head: Addr, segEnd: Addr, ieRegAddr: int, maxDepth: nat, fanOut: nat)
    requires forall a :: |db.CodeRefsFrom(a)| <= fanOut
    ensures |FindIeInstr(db, head, segEnd, ieRegAddr, maxDepth)| <= ForwardBound(fanOut, maxDepth)
    decreases maxDepth, 1, 0
  {
    if maxDepth > 0 && db.NextHead(head, segEnd).Some? {
      var ea := db.NextHead(head, segEnd).value;
      var refs := db.CodeRefsFrom(ea);
      FindIeRefsBounded(db, refs, segEnd, ieRegAddr, maxDepth, fanOut);
      var inner := ForwardBound(fanOut, maxDepth - 1);
      assert |refs| * inner <= fanOut * inner;
    }
  }

  lemma {:induction false} FindIeRefsBounded(db: Database, refs: seq<Addr>, segEnd: Addr, ieRegAddr: int, maxDepth: nat, fanOut: nat)
    requires maxDepth > 0
    requires forall a :: |db.CodeRefsFrom(a)| <= fanOut
    ensures |FindIeRefs(db, refs, segEnd, ieRegAddr, maxDepth)| <= |refs| * ForwardBound(fanOut, maxDepth - 1)
    decreases maxDepth, 0, |refs|
  {
    if |refs| > 0 {
      FindIeBounded(db, refs[0], segEnd, ieRegAddr, maxDepth - 1, fanOut);
      FindIeRefsBounded(db, refs[1..], segEnd, ieRegAddr, maxDepth, fanOut);
      var inner := ForwardBound(fanOut, maxDepth - 1);
      assert (|refs| - 1) * inner + inner == |refs| * inner;
    }
  }
}
