/** The forward walker as the script's comments describe it: every execution
    path from the given handler entry is searched.  The script's walker, after
    recursing on a successor, examines the head AFTER that successor, so every
    successor it recurses on is skipped, fall-through and jump target alike.
    The walker here examines the address it is called on, then follows its
    successors.  Since it no longer calls `NextHead`, it takes no segment end. */
module ReentrantScannerFixed {
  import opened Ida
  import opened ReentrantScanner

  /** Examines `ea` itself: emits it when it matches and walks its successors
      with one less unit of depth; non-code and `reti` end the path. */
  function FindIeFixed(db: Database, ea: Addr, ieRegAddr: int, maxDepth: nat): (r: seq<Addr>)
    decreases maxDepth, 1, 0
    ensures forall k :: 0 <= k < |r| ==> Emittable(db, r[k], ieRegAddr)
    ensures maxDepth == 0 || !Live(db.At(ea)) ==> r == []
  {
    if maxDepth == 0 then []
    else
      var i := db.At(ea);
      if !Live(i) then []
      else
        (if PotentialIeSetInstr(i, ieRegAddr) then [ea] else [])
        + FindIeFixedRefs(db, db.CodeRefsFrom(ea), ieRegAddr, maxDepth)
  }

  function FindIeFixedRefs(db: Database, refs: seq<Addr>, ieRegAddr: int, maxDepth: nat): (r: seq<Addr>)
    requires maxDepth > 0
    decreases maxDepth, 0, |refs|
    ensures forall k :: 0 <= k < |r| ==> Emittable(db, r[k], ieRegAddr)
  {
    if |refs| == 0 then []
    else FindIeFixed(db, refs[0], ieRegAddr, maxDepth - 1) + FindIeFixedRefs(db, refs[1..], ieRegAddr, maxDepth)
  }

  /** A path of at most `depth` live instructions along `CodeRefsFrom` edges
      leads from `from` to `to`. */
  predicate LivePath(db: Database, from: Addr, to: Addr, depth: nat)
    decreases depth
  {
    && depth > 0
    && Live(db.At(from))
    && (from == to || exists s :: s in db.CodeRefsFrom(from) && LivePath(db, s, to, depth - 1))
  }

  /** The intended property: an address is reported exactly when a live path
      of at most `maxDepth` instructions leads to it from the entry and it
      passes the check. */
  lemma {:induction false} FixedEmitsLivePathMatches(db: Database, entry: Addr, ieRegAddr: int, maxDepth: nat, ea: Addr)
    ensures ea in FindIeFixed(db, entry, ieRegAddr, maxDepth)
            <==> LivePath(db, entry, ea, maxDepth) && PotentialIeSetInstr(db.At(ea), ieRegAddr)
    decreases maxDepth, 1, 0
  {
    if maxDepth > 0 && Live(db.At(entry)) {
      FixedRefsEmitLivePathMatches(db, db.CodeRefsFrom(entry), ieRegAddr, maxDepth, ea);
    }
  }

  lemma {:induction false} FixedRefsEmitLivePathMatches(db: Database, refs: seq<Addr>, ieRegAddr: int, maxDepth: nat, ea: Addr)
    requires maxDepth > 0
    ensures ea in FindIeFixedRefs(db, refs, ieRegAddr, maxDepth)
            <==> (exists s :: s in refs && LivePath(db, s, ea, maxDepth - 1)) && PotentialIeSetInstr(db.At(ea), ieRegAddr)
    decreases maxDepth, 0, |refs|
  {
    if |refs| > 0 {
      FixedEmitsLivePathMatches(db, refs[0], ieRegAddr, maxDepth - 1, ea);
      FixedRefsEmitLivePathMatches(db, refs[1..], ieRegAddr, maxDepth, ea);
      if ea in FindIeFixed(db, refs[0], ieRegAddr, maxDepth - 1) {
        assert refs[0] in refs;
      } else if ea in FindIeFixedRefs(db, refs[1..], ieRegAddr, maxDepth) {
        var s :| s in refs[1..] && LivePath(db, s, ea, maxDepth - 1);
        assert s in refs;
      }
      if exists s :: s in refs && LivePath(db, s, ea, maxDepth - 1) {
        var s :| s in refs && LivePath(db, s, ea, maxDepth - 1);
        if s != refs[0] {
          assert s in refs[1..];
        }
      }
    }
  }

  /** A live path that starts inside a set `inside` of addresses stays inside
      it when every live instruction in the set has its live successors in
      the set too: only a non-live successor (data or `reti`) may lead out. */
  lemma {:induction false} LivePathStaysInside(db: Database, inside: set<Addr>, from: Addr, to: Addr, depth: nat)
    requires from in inside
    requires forall a, s :: a in inside && Live(db.At(a)) && s in db.CodeRefsFrom(a) && Live(db.At(s)) ==> s in inside
    requires LivePath(db, from, to, depth)
    ensures to in inside
    decreases depth
  {
    if from != to {
      var s :| s in db.CodeRefsFrom(from) && LivePath(db, s, to, depth - 1);
      LivePathStaysInside(db, inside, s, to, depth - 1);
    }
  }

  /** The corrected walker never crosses an interrupt return: when every way
      out of `inside` goes through a `reti` or non-code, it prints only
      addresses inside. */
  lemma FixedNeverCrossesReti(db: Database, inside: set<Addr>, entry: Addr, ieRegAddr: int, maxDepth: nat, ea: Addr)
    requires entry in inside
    requires forall a, s :: a in inside && Live(db.At(a)) && s in db.CodeRefsFrom(a) && Live(db.At(s)) ==> s in inside
    requires ea in FindIeFixed(db, entry, ieRegAddr, maxDepth)
    ensures ea in inside
  {
    FixedEmitsLivePathMatches(db, entry, ieRegAddr, maxDepth, ea);
    LivePathStaysInside(db, inside, entry, ea, maxDepth);
  }

  /** In particular the corrected walker never skips a successor: a matching
      live successor of a live entry is reported once the depth allows two
      instructions. */
  lemma FixedReportsMatchingSuccessor(db: Database, entry: Addr, s: Addr, ieRegAddr: int, maxDepth: nat)
    requires maxDepth >= 2 && Live(db.At(entry)) && s in db.CodeRefsFrom(entry)
    requires Emittable(db, s, ieRegAddr)
    ensures s in FindIeFixed(db, entry, ieRegAddr, maxDepth)
  {
    assert LivePath(db, s, s, maxDepth - 1);
    assert LivePath(db, entry, s, maxDepth);
    FixedEmitsLivePathMatches(db, entry, ieRegAddr, maxDepth, s);
  }
}
