/** The segment-wide driver of the unset-register scanner
    (idapython/unset_scanner.py, `search`): every code head that uses a
    register whose operand-0 text starts with "R" is a candidate, and a
    candidate whose backward search fails is reported and counted. */
module UnsetSearch {
  import opened Ida
  import opened Classify
  import opened UnsetScanner

  /** One segment as `Segments()` and `Heads(seg_ea, SegEnd(seg_ea))` give it:
      its start address and its heads in order. */
  datatype Segment = Segment(start: Addr, heads: seq<Addr>)

  /** Python's `s[:1]`: the first character, or the empty string. */
  function FirstChar(s: string): (p: string)
    ensures p == "R" <==> |s| > 0 && s[0] == 'R'
  {
    if |s| == 0 then "" else s[..1]
  }

  /** A head the scan checks: code, a write or a jump, with an operand 0
      whose text begins with "R".  An address that is not a head never is. */
  function IsCandidate(db: Database, ea: Addr): (r: bool)
    ensures r <==> && ea in db.instrs && db.instrs[ea].isCode
                   && db.instrs[ea].mnem !in NonWriteMnemonics - JumpMnemonics
                   && |db.instrs[ea].Op(0).text| > 0 && db.instrs[ea].Op(0).text[0] == 'R'
  {
    var i := db.At(ea);
    i.isCode && RegIsUsed(i) && FirstChar(i.Op(0).text) == "R"
  }

  /** A candidate with no definition of its operand-0 text within `dist`
      instructions on the explored paths back from it. */
  predicate IsUnset(db: Database, segStart: Addr, ea: Addr, dist: int)
  {
    IsCandidate(db, ea) && !FindSetInstr(db, ea, segStart, dist, db.At(ea).Op(0).text).found
  }

  /** The heads among `heads` that are reported, in order. */
  function UnsetHeads(db: Database, segStart: Addr, heads: seq<Addr>, dist: int): (r: seq<Addr>)
    ensures |r| <= |heads|
  {
    if |heads| == 0 then []
    else
      var last := heads[|heads| - 1];
      UnsetHeads(db, segStart, heads[..|heads| - 1], dist) + (if IsUnset(db, segStart, last, dist) then [last] else [])
  }

  /** A head is reported exactly when it is an unset candidate of the segment. */
  lemma {:induction false} UnsetHeadsMembership(db: Database, segStart: Addr, heads: seq<Addr>, dist: int)
    ensures forall a :: a in UnsetHeads(db, segStart, heads, dist) <==> a in heads && IsUnset(db, segStart, a, dist)
    decreases |heads|
  {
    if |heads| > 0 {
      var prefix := heads[..|heads| - 1];
      assert heads == prefix + [heads[|heads| - 1]];
      UnsetHeadsMembership(db, segStart, prefix, dist);
    }
  }

  /** Everything `search` prints, segment after segment. */
  function Reported(db: Database, segs: seq<Segment>, dist: int): seq<Addr>
  {
    if |segs| == 0 then []
    else
      var last := segs[|segs| - 1];
      Reported(db, segs[..|segs| - 1], dist) + UnsetHeads(db, last.start, last.heads, dist)
  }

  /** An address is printed exactly when some segment lists it as a head at
      which it is an unset candidate. */
  lemma {:induction false} ReportedMembership(db: Database, segs: seq<Segment>, dist: int)
    ensures forall a :: a in Reported(db, segs, dist)
                        <==> exists s :: 0 <= s < |segs| && a in segs[s].heads && IsUnset(db, segs[s].start, a, dist)
    decreases |segs|
  {
    if |segs| > 0 {
      var last := segs[|segs| - 1];
      var prefix := segs[..|segs| - 1];
      ReportedMembership(db, prefix, dist);
      UnsetHeadsMembership(db, last.start, last.heads, dist);
      assert forall s :: 0 <= s < |segs| - 1 ==> segs[s] == prefix[s];
      forall a | a in Reported(db, segs, dist)
        ensures exists s :: 0 <= s < |segs| && a in segs[s].heads && IsUnset(db, segs[s].start, a, dist)
      {
        if a !in Reported(db, prefix, dist) {
          assert a in last.heads && IsUnset(db, last.start, a, dist);
        }
      }
    }
  }

  /** The script's loops: print each unset candidate and count them.  The
      printed heads are `Reported` in order and `numFound` is their number. */
  method Search(db: Database, segs: seq<Segment>, dist: int) returns (printed: seq<Addr>, numFound: nat)
    ensures printed == Reported(db, segs, dist)
    ensures numFound == |printed|
  {
    printed := [];
    numFound := 0;
    var s := 0;
    while s < |segs|
      invariant 0 <= s <= |segs|
      invariant printed == Reported(db, segs[..s], dist)
      invariant numFound == |printed|
    {
      var seg := segs[s];
      var h := 0;
      var before := printed;
      while h < |seg.heads|
        invariant 0 <= h <= |seg.heads|
        invariant printed == before + UnsetHeads(db, seg.start, seg.heads[..h], dist)
        invariant numFound == |printed|
      {
        var head := seg.heads[h];
        assert seg.heads[..h + 1] == seg.heads[..h] + [head];
        var i := db.At(head);
        if i.isCode {
          if RegIsUsed(i) && FirstChar(i.Op(0).text) == "R" {
            var src := i.Op(0).text;
            var result := FindSetInstr(db, head, seg.start, dist, src);
            if !result.found {
              printed := printed + [head];
              numFound := numFound + 1;
            }
          }
        }
        assert seg.heads[..h + 1][..h] == seg.heads[..h];
        assert printed == before + UnsetHeads(db, seg.start, seg.heads[..h + 1], dist);
        h := h + 1;
      }
      assert seg.heads[..h] == seg.heads;
      assert segs[..s + 1][..s] == segs[..s];
      s := s + 1;
    }
    assert segs[..s] == segs;
  }

  /** With no budget nothing is ever found, so every candidate is reported. */
  lemma {:induction false} NoBudgetReportsEveryCandidate(db: Database, segStart: Addr, heads: seq<Addr>, dist: int)
    requires dist <= 0
    ensures forall a :: a in UnsetHeads(db, segStart, heads, dist) <==> a in heads && IsCandidate(db, a)
  {
    UnsetHeadsMembership(db, segStart, heads, dist);
    forall a | a in heads && IsCandidate(db, a)
      ensures IsUnset(db, segStart, a, dist)
    {
      assert FindSetInstr(db, a, segStart, dist, db.At(a).Op(0).text) == NotFound;
    }
  }

  /** Searching further back never reports a candidate that a shorter search
      cleared: every head reported with `dist'` is also reported with any
      `dist <= dist'`, and the count cannot grow. */
  lemma {:induction false} MoreDistanceReportsLess(db: Database, segStart: Addr, heads: seq<Addr>, dist: int, dist': int)
    requires dist <= dist'
    ensures |UnsetHeads(db, segStart, heads, dist')| <= |UnsetHeads(db, segStart, heads, dist)|
    ensures forall a :: a in UnsetHeads(db, segStart, heads, dist') ==> a in UnsetHeads(db, segStart, heads, dist)
    decreases |heads|
  {
    if |heads| > 0 {
      var last := heads[|heads| - 1];
      var prefix := heads[..|heads| - 1];
      MoreDistanceReportsLess(db, segStart, prefix, dist, dist');
      UnsetHeadsMembership(db, segStart, prefix, dist);
      UnsetHeadsMembership(db, segStart, prefix, dist');
      if IsUnset(db, segStart, last, dist') && !IsUnset(db, segStart, last, dist) {
        MoreBudgetKeepsDefinition(db, last, segStart, dist, dist', db.At(last).Op(0).text);
      }
    }
  }
}
