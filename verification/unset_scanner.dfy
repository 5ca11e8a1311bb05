/** The backward walker of the unset-register scanner
    (idapython/unset_scanner.py, `find_set_instr`).

    From a candidate instruction the walker steps back over previous heads,
    one unit of budget per step, looking for an instruction that defines the
    source operand.  At every referenced code instruction it first searches
    each incoming jump or call with one unit less budget, and at a block head
    (referenced but not reached by fall-through) it stops the linear walk
    afterwards.  Nothing is memoised: each incoming reference is searched
    afresh. */
module UnsetScanner {
  import opened Ida
  import opened Classify

  /** The pair `find_set_instr` returns: whether a definition was found and
      where (`None` standing for BADADDR). */
  datatype SetSearch = SetSearch(found: bool, at: Option<Addr>)

  const NotFound: SetSearch := SetSearch(false, None)

  /** The shape the script promises: a hit names a code head that defines
      `src`; a miss always carries BADADDR. */
  predicate WellFormed(db: Database, r: SetSearch, src: string)
  {
    if r.found then r.at.Some? && db.At(r.at.value).isCode && IsSetInstr(db.At(r.at.value), src)
    else r.at == None
  }

  /** The budget as a termination measure: the loop continues while it is positive. */
  function Fuel(budget: int): nat
  {
    if budget > 0 then budget else 0
  }

  /** `find_set_instr(head, seg_ea, instr_searched, src)`.  The walk starts at
      the previous head, not at `head`; on a loop a later step can still reach
      `head` again (`Scenarios.BackwardLoopReachesStartHead`). */
  function FindSetInstr(db: Database, head: Addr, segStart: Addr, budget: int, src: string): (r: SetSearch)
    decreases Fuel(budget), 2, 0
    ensures WellFormed(db, r, src)
    ensures budget <= 0 ==> r == NotFound
  {
    ScanBack(db, db.PrevHead(head, segStart), segStart, budget, src)
  }

  /** The `while` loop of `find_set_instr`, from the head `cur` on with
      `budget` steps left. */
  function ScanBack(db: Database, cur: Option<Addr>, segStart: Addr, budget: int, src: string): (r: SetSearch)
    decreases Fuel(budget), 1, 0
    ensures WellFormed(db, r, src)
  {
    if budget <= 0 || cur.None? then NotFound
    else
      var ea := cur.value;
      var i := db.At(ea);
      var next := db.PrevHead(ea, segStart);
      if !i.isCode then ScanBack(db, next, segStart, budget - 1, src)
      else if IsSetInstr(i, src) then SetSearch(true, Some(ea))
      else if !i.isRef then ScanBack(db, next, segStart, budget - 1, src)
      else
        var viaRefs := ScanRefs(db, db.CodeRefsTo(ea), segStart, budget, src);
        if viaRefs.found then viaRefs
        else if !i.isFlow then NotFound
        else ScanBack(db, next, segStart, budget - 1, src)
  }

  /** The `for ref_ea in CodeRefsTo(curr_ea, 0)` loop: each incoming reference
      is searched with `budget - 1`, and the first hit is returned. */
  function ScanRefs(db: Database, refs: seq<Addr>, segStart: Addr, budget: int, src: string): (r: SetSearch)
    requires budget > 0
    decreases Fuel(budget), 0, |refs|
    ensures WellFormed(db, r, src)
  {
    if |refs| == 0 then NotFound
    else
      var first := FindSetInstr(db, refs[0], segStart, budget - 1, src);
      if first.found then first
      else ScanRefs(db, refs[1..], segStart, budget, src)
  }

  // ---------------------------------------------------------------------------
  // Reference definition: the order in which the walker examines instructions
  // ---------------------------------------------------------------------------

  /** Every code head the walk from `head` would check with `is_set_instr` if no
      check ever succeeded, in the order it checks them.  The order depends only
      on the database and the budget, never on the target. */
  function BackVisits(db: Database, head: Addr, segStart: Addr, budget: int): (r: seq<Addr>)
    decreases Fuel(budget), 2, 0
    ensures forall k :: 0 <= k < |r| ==> db.At(r[k]).isCode
  {
    WalkVisits(db, db.PrevHead(head, segStart), segStart, budget)
  }

  function WalkVisits(db: Database, cur: Option<Addr>, segStart: Addr, budget: int): (r: seq<Addr>)
    decreases Fuel(budget), 1, 0
    ensures forall k :: 0 <= k < |r| ==> db.At(r[k]).isCode
  {
    if budget <= 0 || cur.None? then []
    else
      var ea := cur.value;
      var i := db.At(ea);
      var next := db.PrevHead(ea, segStart);
      if !i.isCode then WalkVisits(db, next, segStart, budget - 1)
      else if !i.isRef then [ea] + WalkVisits(db, next, segStart, budget - 1)
      else if !i.isFlow then [ea] + RefsVisits(db, db.CodeRefsTo(ea), segStart, budget)
      else [ea] + RefsVisits(db, db.CodeRefsTo(ea), segStart, budget) + WalkVisits(db, next, segStart, budget - 1)
  }

  function RefsVisits(db: Database, refs: seq<Addr>, segStart: Addr, budget: int): (r: seq<Addr>)
    requires budget > 0
    decreases Fuel(budget), 0, |refs|
    ensures forall k :: 0 <= k < |r| ==> db.At(r[k]).isCode
  {
    if |refs| == 0 then []
    else BackVisits(db, refs[0], segStart, budget - 1) + RefsVisits(db, refs[1..], segStart, budget)
  }

  /** The first head of `trace` that defines `src`, as a `find_set_instr` result. */
  function FirstSet(db: Database, trace: seq<Addr>, src: string): (r: SetSearch)
    ensures r.found ==> r.at.Some? && r.at.value in trace && IsSetInstr(db.At(r.at.value), src)
    ensures !r.found <==> forall k :: 0 <= k < |trace| ==> !IsSetInstr(db.At(trace[k]), src)
    ensures !r.found ==> r.at == None
  {
    if |trace| == 0 then NotFound
    else if IsSetInstr(db.At(trace[0]), src) then SetSearch(true, Some(trace[0]))
    else FirstSet(db, trace[1..], src)
  }

  /** The first hit of a concatenation is the first hit of its left part, if any. */
  lemma {:induction false} FirstSetAppend(db: Database, a: seq<Addr>, b: seq<Addr>, src: string)
    ensures FirstSet(db, a + b, src) == if FirstSet(db, a, src).found then FirstSet(db, a, src) else FirstSet(db, b, src)
    decreases |a|
  {
    if |a| == 0 {
      assert a + b == b;
    } else {
      assert (a + b)[0] == a[0];
      assert (a + b)[1..] == a[1..] + b;
      FirstSetAppend(db, a[1..], b, src);
    }
  }

  /** The first hit of a trace is its earliest defining element. */
  lemma {:induction false} FirstSetIsEarliest(db: Database, trace: seq<Addr>, src: string)
    requires FirstSet(db, trace, src).found
    ensures exists k :: 0 <= k < |trace| && trace[k] == FirstSet(db, trace, src).at.value
                        && IsSetInstr(db.At(trace[k]), src)
                        && forall j :: 0 <= j < k ==> !IsSetInstr(db.At(trace[j]), src)
    decreases |trace|
  {
    if IsSetInstr(db.At(trace[0]), src) {
      assert trace[0] == FirstSet(db, trace, src).at.value;
    } else {
      FirstSetIsEarliest(db, trace[1..], src);
      var k :| 0 <= k < |trace[1..]| && trace[1..][k] == FirstSet(db, trace[1..], src).at.value
               && IsSetInstr(db.At(trace[1..][k]), src)
               && forall j :: 0 <= j < k ==> !IsSetInstr(db.At(trace[1..][j]), src);
      assert trace[k + 1] == FirstSet(db, trace, src).at.value;
      forall j | 0 <= j < k + 1
        ensures !IsSetInstr(db.At(trace[j]), src)
      {
        if j > 0 {
          assert trace[j] == trace[1..][j - 1];
        }
      }
    }
  }

  /** `find_set_instr` returns the first defining instruction in the
      examination order, and fails exactly when none of the examined
      instructions defines `src`. */
  lemma {:induction false} FindSetIsFirstVisitedSet(db: Database, head: Addr, segStart: Addr, budget: int, src: string)
    ensures FindSetInstr(db, head, segStart, budget, src) == FirstSet(db, BackVisits(db, head, segStart, budget), src)
    decreases Fuel(budget), 2, 0
  {
    ScanBackIsFirstVisitedSet(db, db.PrevHead(head, segStart), segStart, budget, src);
  }

  lemma {:induction false} ScanBackIsFirstVisitedSet(db: Database, cur: Option<Addr>, segStart: Addr, budget: int, src: string)
    ensures ScanBack(db, cur, segStart, budget, src) == FirstSet(db, WalkVisits(db, cur, segStart, budget), src)
    decreases Fuel(budget), 1, 1
  {
    if budget <= 0 || cur.None? {
    } else {
      var ea := cur.value;
      var i := db.At(ea);
      var next := db.PrevHead(ea, segStart);
      if !i.isCode {
        ScanBackIsFirstVisitedSet(db, next, segStart, budget - 1, src);
      } else if IsSetInstr(i, src) {
        var w := WalkVisits(db, cur, segStart, budget);
        assert w[0] == ea;
      } else if !i.isRef {
        var rest := WalkVisits(db, next, segStart, budget - 1);
        FirstSetAppend(db, [ea], rest, src);
        ScanBackIsFirstVisitedSet(db, next, segStart, budget - 1, src);
      } else {
        ReferencedHeadIsFirstVisitedSet(db, ea, segStart, budget, src);
      }
    }
  }

  /** The case of `ScanBackIsFirstVisitedSet` at a referenced code head that
      does not define `src`. */
  lemma {:induction false} ReferencedHeadIsFirstVisitedSet(db: Database, ea: Addr, segStart: Addr, budget: int, src: string)
    requires budget > 0 && db.At(ea).isCode && db.At(ea).isRef && !IsSetInstr(db.At(ea), src)
    ensures ScanBack(db, Some(ea), segStart, budget, src) == FirstSet(db, WalkVisits(db, Some(ea), segStart, budget), src)
    decreases Fuel(budget), 1, 0
  {
    var next := db.PrevHead(ea, segStart);
    var refs := RefsVisits(db, db.CodeRefsTo(ea), segStart, budget);
    ScanRefsIsFirstVisitedSet(db, db.CodeRefsTo(ea), segStart, budget, src);
    FirstSetAppend(db, [ea], refs, src);
    if db.At(ea).isFlow {
      var rest := WalkVisits(db, next, segStart, budget - 1);
      assert [ea] + refs + rest == [ea] + (refs + rest);
      FirstSetAppend(db, [ea], refs + rest, src);
      FirstSetAppend(db, refs, rest, src);
      ScanBackIsFirstVisitedSet(db, next, segStart, budget - 1, src);
    }
  }

  lemma {:induction false} ScanRefsIsFirstVisitedSet(db: Database, refs: seq<Addr>, segStart: Addr, budget: int, src: string)
    requires budget > 0
    ensures ScanRefs(db, refs, segStart, budget, src) == FirstSet(db, RefsVisits(db, refs, segStart, budget), src)
    decreases Fuel(budget), 0, |refs|
  {
    if |refs| > 0 {
      FindSetIsFirstVisitedSet(db, refs[0], segStart, budget - 1, src);
      ScanRefsIsFirstVisitedSet(db, refs[1..], segStart, budget, src);
      FirstSetAppend(db, BackVisits(db, refs[0], segStart, budget - 1), RefsVisits(db, refs[1..], segStart, budget), src);
    }
  }

  /** Soundness and completeness of the backward search: a hit is the
      earliest examined instruction that defines `src`, and a miss means no
      examined instruction defines it. */
  lemma FindSetHitIsEarliest(db: Database, head: Addr, segStart: Addr, budget: int, src: string)
    ensures var r := FindSetInstr(db, head, segStart, budget, src);
            var trace := BackVisits(db, head, segStart, budget);
            (!r.found <==> forall k :: 0 <= k < |trace| ==> !IsSetInstr(db.At(trace[k]), src))
            && (r.found ==> exists k :: 0 <= k < |trace| && trace[k] == r.at.value
                                        && forall j :: 0 <= j < k ==> !IsSetInstr(db.At(trace[j]), src))
  {
    FindSetIsFirstVisitedSet(db, head, segStart, budget, src);
    var trace := BackVisits(db, head, segStart, budget);
    if FirstSet(db, trace, src).found {
      FirstSetIsEarliest(db, trace, src);
    }
  }

  /** At a block head (a referenced code instruction not reached by
      fall-through) the walk examines the instruction and its incoming
      references and nothing past it: the linear walk ends there. */
  lemma BlockHeadEndsLinearWalk(db: Database, ea: Addr, segStart: Addr, budget: int)
    requires budget > 0
    requires db.At(ea).isCode && db.At(ea).isRef && !db.At(ea).isFlow
    ensures WalkVisits(db, Some(ea), segStart, budget) == [ea] + RefsVisits(db, db.CodeRefsTo(ea), segStart, budget)
  {
  }

  // ---------------------------------------------------------------------------
  // Budget
  // ---------------------------------------------------------------------------

  /** A larger budget examines every instruction a smaller one does. */
  lemma {:induction false} BackVisitsMonotone(db: Database, head: Addr, segStart: Addr, b: int, b': int, x: Addr)
    requires b <= b' && x in BackVisits(db, head, segStart, b)
    ensures x in BackVisits(db, head, segStart, b')
    decreases Fuel(b), 2, 0
  {
    WalkVisitsMonotone(db, db.PrevHead(head, segStart), segStart, b, b', x);
  }

  lemma {:induction false} WalkVisitsMonotone(db: Database, cur: Option<Addr>, segStart: Addr, b: int, b': int, x: Addr)
    requires b <= b' && x in WalkVisits(db, cur, segStart, b)
    ensures x in WalkVisits(db, cur, segStart, b')
    decreases Fuel(b), 1, 0
  {
    var ea := cur.value;
    var i := db.At(ea);
    var next := db.PrevHead(ea, segStart);
    var refs := db.CodeRefsTo(ea);
    if !i.isCode {
      WalkVisitsMonotone(db, next, segStart, b - 1, b' - 1, x);
    } else if x == ea {
    } else if !i.isRef {
      WalkVisitsMonotone(db, next, segStart, b - 1, b' - 1, x);
    } else if x in RefsVisits(db, refs, segStart, b) {
      RefsVisitsMonotone(db, refs, segStart, b, b', x);
    } else {
      assert i.isFlow && x in WalkVisits(db, next, segStart, b - 1);
      WalkVisitsMonotone(db, next, segStart, b - 1, b' - 1, x);
    }
  }

  lemma {:induction false} RefsVisitsMonotone(db: Database, refs: seq<Addr>, segStart: Addr, b: int, b': int, x: Addr)
    requires 0 < b <= b' && x in RefsVisits(db, refs, segStart, b)
    ensures x in RefsVisits(db, refs, segStart, b')
    decreases Fuel(b), 0, |refs|
  {
    if x in BackVisits(db, refs[0], segStart, b - 1) {
      BackVisitsMonotone(db, refs[0], segStart, b - 1, b' - 1, x);
    } else {
      RefsVisitsMonotone(db, refs[1..], segStart, b, b', x);
    }
  }

  /** A definition found within some budget is still found with any larger one. */
  lemma MoreBudgetKeepsDefinition(db: Database, head: Addr, segStart: Addr, b: int, b': int, src: string)
    requires b <= b' && FindSetInstr(db, head, segStart, b, src).found
    ensures FindSetInstr(db, head, segStart, b', src).found
  {
    FindSetHitIsEarliest(db, head, segStart, b, src);
    FindSetHitIsEarliest(db, head, segStart, b', src);
    var trace := BackVisits(db, head, segStart, b);
    var k :| 0 <= k < |trace| && IsSetInstr(db.At(trace[k]), src);
    BackVisitsMonotone(db, head, segStart, b, b', trace[k]);
  }

  /** The worst-case number of instructions examined with a given budget when
      no instruction has more than `fanIn` incoming references. */
  function BackBound(fanIn: nat, budget: int): nat
    decreases Fuel(budget)
  {
    if budget <= 0 then 0 else 1 + (fanIn + 1) * BackBound(fanIn, budget - 1)
  }

  lemma {:induction false} BackBoundGrows(fanIn: nat, budget: int)
    ensures BackBound(fanIn, budget - 1) <= BackBound(fanIn, budget)
  {
  }

  /** Termination in numbers: with per-instruction fan-in at most `fanIn`, the
      walk examines at most `BackBound(fanIn, budget)` instructions, however
      cyclic the control-flow graph is. */
  lemma {:induction false} BackVisitsBounded(db: Database, head: Addr, segStart: Addr, budget: int, fanIn: nat)
    requires forall a :: |db.CodeRefsTo(a)| <= fanIn
    ensures |BackVisits(db, head, segStart, budget)| <= BackBound(fanIn, budget)
    decreases Fuel(budget), 2, 0
  {
    WalkVisitsBounded(db, db.PrevHead(head, segStart), segStart, budget, fanIn);
  }

  lemma {:induction false} WalkVisitsBounded(db: Database, cur: Option<Addr>, segStart: Addr, budget: int, fanIn: nat)
    requires forall a :: |db.CodeRefsTo(a)| <= fanIn
    ensures |WalkVisits(db, cur, segStart, budget)| <= BackBound(fanIn, budget)
    decreases Fuel(budget), 1, 0
  {
    if budget > 0 && cur.Some? {
      var ea := cur.value;
      var i := db.At(ea);
      var next := db.PrevHead(ea, segStart);
      var inner := BackBound(fanIn, budget - 1);
      assert BackBound(fanIn, budget) == 1 + fanIn * inner + inner;
      WalkVisitsBounded(db, next, segStart, budget - 1, fanIn);
      if i.isCode && i.isRef {
        var refs := db.CodeRefsTo(ea);
        RefsVisitsBounded(db, refs, segStart, budget, fanIn);
        RefsVisitsWithinFanIn(|refs|, fanIn, inner);
      }
    }
  }

  lemma RefsVisitsWithinFanIn(n: nat, fanIn: nat, inner: nat)
    requires n <= fanIn
    ensures n * inner <= fanIn * inner
  {
  }

  lemma {:induction false} RefsVisitsBounded(db: Database, refs: seq<Addr>, segStart: Addr, budget: int, fanIn: nat)
    requires budget > 0
    requires forall a :: |db.CodeRefsTo(a)| <= fanIn
    ensures |RefsVisits(db, refs, segStart, budget)| <= |refs| * BackBound(fanIn, budget - 1)
    decreases Fuel(budget), 0, |refs|
  {
    if |refs| > 0 {
      BackVisitsBounded(db, refs[0], segStart, budget - 1, fanIn);
      RefsVisitsBounded(db, refs[1..], segStart, budget, fanIn);
      var inner := BackBound(fanIn, budget - 1);
      assert (|refs| - 1) * inner + inner == |refs| * inner;
    }
  }
}
