/** The graph invariant every sheet keeps, and how the two mutations affect it:
    a commit that passed the cycle check preserves it, and clearing a cell
    keeps the graph acyclic but leaves dangling references or stale reverse
    edges when the cleared cell was read or was reading. */
module SheetInvariants {
  import opened Common
  import opened Cells
  import opened SheetState
  import opened DependencyGraph
  import opened SheetSpec

  /** A fresh sheet satisfies the invariant. */
  lemma EmptyTableInvariant()
    ensures Invariant(map[])
  {
    var t: Table := map[];
    assert forall s :: IsPath(t, s) && |s| > 1 ==> s[1] in Refs(t, s[0]);
  }

  /** Under the invariant, reverse edges agree with forward edges also at
      positions that have no entry (both sides are then empty). */
  lemma TransposedLookup(t: Table, p: Position, q: Position)
    requires Closed(t) && Transposed(t)
    ensures multiset(Lookup(t, q).edges)[p] == multiset(Refs(t, p))[q]
  {
    if q !in t {
      assert q !in Refs(t, p);
    }
  }

  lemma CommittedKeys(t: Table, pos: Position, c: Content)
    requires Closed(t)
    ensures Committed(t, pos, c).Keys == t.Keys + {pos} + (set i | i in ReferencedCells(c))
  {
    var refs := ReferencedCells(c);
    if pos !in t || t[pos].cell.None? {
      AddDependentKeys(t[pos := Entry(Lookup(t, pos).edges, Some(c))], pos, refs);
    } else {
      var t1 := ResetReachable(t, pos);
      var old_refs := Refs(t1, pos);
      DropDependentKeys(t1, pos, old_refs);
      var t2 := DropDependent(t1, pos, old_refs);
      AddDependentKeys(t2[pos := Entry(Lookup(t2, pos).edges, Some(c))], pos, refs);
    }
  }

  /** Every position of a committed table holds a cell when every position
      held one before. */
  lemma CommittedCell(t: Table, pos: Position, c: Content, q: Position)
    requires NoNullCells(t) && Closed(t)
    ensures q in Committed(t, pos, c) ==> Committed(t, pos, c)[q].cell.Some?
  {
    var refs := ReferencedCells(c);
    if pos !in t {
      var t2 := t[pos := Entry(Lookup(t, pos).edges, Some(c))];
      assert Committed(t, pos, c) == AddDependent(t2, pos, refs);
      AddDependentAt(t2, pos, refs, q);
      AddDependentKeys(t2, pos, refs);
    } else {
      CommittedCellPresent(t, pos, c, q);
    }
  }

  /** The cache reset of a commit keeps the invariant's shape: keys, cells
      present, forward and reverse edges. */
  lemma ResetKeepsShape(t: Table, pos: Position)
    ensures var t1 := ResetReachable(t, pos);
      && (NoNullCells(t) ==> NoNullCells(t1))
      && (Closed(t) ==> Closed(t1))
      && (Transposed(t) ==> Transposed(t1))
      && (pos in t && t[pos].cell.Some? ==> pos in t1 && t1[pos].cell.Some?)
  {
  }

  /** Every position of a rewired table holds a cell when every position
      held one before. */
  lemma RewiredCell(t1: Table, pos: Position, c: Content, q: Position)
    requires NoNullCells(t1) && Closed(t1) && pos in t1
    ensures q in Rewired(t1, pos, c) ==> Rewired(t1, pos, c)[q].cell.Some?
  {
    var d := DropDependent(t1, pos, Refs(t1, pos));
    DropDependentCell(t1, pos, Refs(t1, pos), q);
    DropDependentKeys(t1, pos, Refs(t1, pos));
    var t2 := d[pos := Entry(Lookup(d, pos).edges, Some(c))];
    assert Rewired(t1, pos, c) == AddDependent(t2, pos, ReferencedCells(c));
    AddDependentAt(t2, pos, ReferencedCells(c), q);
    AddDependentKeys(t2, pos, ReferencedCells(c));
  }

  lemma CommittedCellPresent(t: Table, pos: Position, c: Content, q: Position)
    requires NoNullCells(t) && Closed(t) && pos in t
    ensures q in Committed(t, pos, c) ==> Committed(t, pos, c)[q].cell.Some?
  {
    CommittedIsRewired(t, pos, c);
    ResetKeepsShape(t, pos);
    RewiredCell(ResetReachable(t, pos), pos, c, q);
  }

  /** Reverse-edge counts after a commit at a position that had no entry. */
  lemma CommittedCountFresh(t: Table, pos: Position, c: Content, q: Position, p: Position)
    requires Closed(t) && Transposed(t) && pos !in t
    ensures q in Committed(t, pos, c) ==> multiset(Committed(t, pos, c)[q].edges)[p] == multiset(Refs(Committed(t, pos, c), p))[q]
  {
    var refs := ReferencedCells(c);
    var t2 := t[pos := Entry([], Some(c))];
    var r := AddDependent(t2, pos, refs);
    assert Committed(t, pos, c) == r;
    AddDependentAt(t2, pos, refs, q);
    MultisetRepeat(Lookup(t2, q).edges, pos, multiset(refs)[q], p);
    CommittedRefs(t, pos, c, p);
    TransposedLookup(t, p, q);
    assert Refs(t, pos) == [];
    if p != pos {
      assert pos !in Refs(t, p);
    }
  }

  /** Only the forward edges of pos change in a rewiring, to those of c. */
  lemma RewiredRefs(t1: Table, pos: Position, c: Content, x: Position)
    requires pos in t1 && t1[pos].cell.Some?
    ensures Refs(Rewired(t1, pos, c), x) == if x == pos then ReferencedCells(c) else Refs(t1, x)
  {
    var d := DropDependent(t1, pos, Refs(t1, pos));
    DropKeepsRefs(t1, pos, Refs(t1, pos), x);
    var t2 := d[pos := Entry(Lookup(d, pos).edges, Some(c))];
    AddKeepsRefs(t2, pos, ReferencedCells(c), x);
  }

  /** Reverse-edge counts after a rewiring over an existing cell. */
  lemma RewiredCount(t1: Table, pos: Position, c: Content, q: Position, p: Position)
    requires Closed(t1) && Transposed(t1) && pos in t1 && t1[pos].cell.Some?
    ensures var r := Rewired(t1, pos, c);
      q in r ==> multiset(r[q].edges)[p] == multiset(Refs(r, p))[q]
  {
    var refs := ReferencedCells(c);
    var old_refs := Refs(t1, pos);
    var d := DropDependent(t1, pos, old_refs);
    var t2 := d[pos := Entry(Lookup(d, pos).edges, Some(c))];
    assert Rewired(t1, pos, c) == AddDependent(t2, pos, refs);
    AddDependentAt(t2, pos, refs, q);
    MultisetRepeat(Lookup(t2, q).edges, pos, multiset(refs)[q], p);
    assert Lookup(t2, q).edges == Lookup(d, q).edges;
    DropDependentCount(t1, pos, old_refs, q, p);
    DropDependentKeys(t1, pos, old_refs);
    TransposedLookup(t1, p, q);
    RewiredRefs(t1, pos, c, p);
  }

  /** Reverse-edge counts after a commit over an existing cell. */
  lemma CommittedCountPresent(t: Table, pos: Position, c: Content, q: Position, p: Position)
    requires Closed(t) && Transposed(t) && pos in t && t[pos].cell.Some?
    ensures q in Committed(t, pos, c) ==> multiset(Committed(t, pos, c)[q].edges)[p] == multiset(Refs(Committed(t, pos, c), p))[q]
  {
    CommittedIsRewired(t, pos, c);
    ResetKeepsShape(t, pos);
    RewiredCount(ResetReachable(t, pos), pos, c, q, p);
  }

  /** A commit that passed the cycle check preserves the invariant. */
  lemma CommitPreservesInvariant(t: Table, pos: Position, c: Content)
    requires Invariant(t)
    requires !CycleFound(t, pos, ReferencedCells(c))
    ensures Invariant(Committed(t, pos, c))
  {
    var r := Committed(t, pos, c);
    var refs := ReferencedCells(c);
    CommittedKeys(t, pos, c);
    forall q | q in r ensures r[q].cell.Some? {
      CommittedCell(t, pos, c, q);
    }
    forall p, q | p in r && q in Refs(r, p) ensures q in r {
      CommittedRefs(t, pos, c, p);
    }
    forall p, q | q in r ensures multiset(r[q].edges)[p] == multiset(Refs(r, p))[q] {
      if pos in t {
        CommittedCountPresent(t, pos, c, q, p);
      } else {
        CommittedCountFresh(t, pos, c, q, p);
      }
    }
    forall x | x != pos ensures Refs(r, x) == Refs(t, x) {
      CommittedRefs(t, pos, c, x);
    }
    CommittedRefs(t, pos, c, pos);
    CycleFoundSound(t, pos, refs);
    AcyclicAfterRewire(t, r, pos);
  }

  // ---------------------------------------------------------------------------
  // ClearCell

  /** Clearing removes the forward edges of pos and no others. */
  lemma ClearedRefs(t: Table, pos: Position, x: Position)
    ensures Refs(Cleared(t, pos), x) == if x == pos then [] else Refs(t, x)
  {
  }

  /** Clearing a held cell erases its whole entry and keeps every other key. */
  lemma ClearedKeys(t: Table, pos: Position)
    requires pos in t && t[pos].cell.Some?
    ensures Cleared(t, pos).Keys == t.Keys - {pos}
  {
  }

  lemma ClearPreservesNoNullCells(t: Table, pos: Position)
    requires NoNullCells(t)
    ensures NoNullCells(Cleared(t, pos))
  {
  }

  /** Clearing only removes edges, so it cannot create a cycle. */
  lemma ClearPreservesAcyclic(t: Table, pos: Position)
    requires Acyclic(t)
    ensures Acyclic(Cleared(t, pos))
  {
    var r := Cleared(t, pos);
    forall x | x != pos ensures Refs(r, x) == Refs(t, x) {
      ClearedRefs(t, pos, x);
    }
    ClearedRefs(t, pos, pos);
    AcyclicAfterRewire(t, r, pos);
  }

  /** An unread cell can be cleared without leaving a dangling reference. */
  lemma ClearUnreadStaysClosed(t: Table, pos: Position)
    requires Invariant(t) && pos in t && t[pos].edges == []
    ensures Closed(Cleared(t, pos))
  {
    var r := Cleared(t, pos);
    forall p, q | p in r && q in Refs(r, p) ensures q in r {
      ClearedRefs(t, pos, p);
      assert multiset(t[pos].edges)[p] == 0;
    }
  }

  /** Clearing a cell that some formula reads leaves that formula reading a
      position without an entry. */
  lemma ClearReadDangles(t: Table, pos: Position)
    requires Invariant(t) && pos in t && t[pos].edges != []
    ensures !Closed(Cleared(t, pos))
  {
    var r := Cleared(t, pos);
    var p := t[pos].edges[0];
    assert p in t[pos].edges;
    assert multiset(Refs(t, p))[pos] > 0;
    assert pos in Refs(t, p);
    assert p != pos by {
      if p == pos {
        ReachesRefl(t, pos);
        BackEdgeCycle(t, pos, pos);
      }
    }
    ClearedRefs(t, pos, p);
    assert p in r && pos in Refs(r, p) && pos !in r;
  }

  /** Clearing keeps every reference resolvable exactly when no formula read
      the cleared cell. */
  lemma ClearKeepsClosedIff(t: Table, pos: Position)
    requires Invariant(t) && pos in t
    ensures Closed(Cleared(t, pos)) <==> t[pos].edges == []
  {
    if t[pos].edges == [] {
      ClearUnreadStaysClosed(t, pos);
    } else {
      ClearReadDangles(t, pos);
    }
  }

  /** A cleared cell that read nothing leaves no stale reverse edges. */
  lemma ClearUnreadingStaysTransposed(t: Table, pos: Position)
    requires Invariant(t) && pos in t && Refs(t, pos) == []
    ensures Transposed(Cleared(t, pos))
  {
    var r := Cleared(t, pos);
    forall p, q | q in r ensures multiset(r[q].edges)[p] == multiset(Refs(r, p))[q] {
      ClearedRefs(t, pos, p);
    }
  }

  /** Clearing a formula leaves pos in the reverse edges of what it read. */
  lemma ClearReadingLeavesStaleEdge(t: Table, pos: Position)
    requires Invariant(t) && pos in t && Refs(t, pos) != []
    ensures !Transposed(Cleared(t, pos))
  {
    var r := Cleared(t, pos);
    var q := Refs(t, pos)[0];
    assert q in t;
    assert q != pos by {
      if q == pos {
        ReachesRefl(t, pos);
        BackEdgeCycle(t, pos, pos);
      }
    }
    ClearedRefs(t, pos, pos);
    assert multiset(r[q].edges)[pos] == multiset(Refs(t, pos))[q] > 0;
    assert multiset(Refs(r, pos))[q] == 0;
  }

  /** Clearing keeps reverse edges the exact transpose exactly when the
      cleared cell read nothing. */
  lemma ClearKeepsTransposedIff(t: Table, pos: Position)
    requires Invariant(t) && pos in t
    ensures Transposed(Cleared(t, pos)) <==> Refs(t, pos) == []
  {
    if Refs(t, pos) == [] {
      ClearUnreadingStaysTransposed(t, pos);
    } else {
      ClearReadingLeavesStaleEdge(t, pos);
    }
  }

  // ---------------------------------------------------------------------------
  // Who loses a cache

  /** Every cell that reads pos, directly or through other cells, is reached
      from pos along reverse edges, as long as every read position has an
      entry and reverse edges mirror forward ones. */
  lemma {:induction false} ReaderInvalidated(t: Table, pos: Position, s: seq<Position>)
    requires Closed(t) && Transposed(t) && pos in t
    requires IsPath(t, s) && s[|s| - 1] == pos
    ensures Invalidated(t, pos, s[0])
    decreases |s|
  {
    if |s| == 1 {
      assert IsEdgePath(t, [pos]);
    } else {
      var tail := s[1..];
      assert IsPath(t, tail) by {
        forall i | 0 <= i < |tail| - 1 ensures tail[i + 1] in Refs(t, tail[i]) {
          assert tail[i] == s[i + 1] && tail[i + 1] == s[i + 2];
        }
      }
      ReaderInvalidated(t, pos, tail);
      assert s[1] in Refs(t, s[0]);
      assert multiset(Refs(t, s[0]))[s[1]] > 0;
      assert s[0] in t[s[1]].edges;
      InvalidatedStep(t, pos, s[1], s[0]);
    }
  }

  /** The rewiring keeps the cell of every other entry that has one. */
  lemma RewiredKeepsCell(t1: Table, pos: Position, c: Content, p: Position)
    requires p != pos && p in t1 && t1[p].cell.Some?
    ensures p in Rewired(t1, pos, c) && Rewired(t1, pos, c)[p].cell == t1[p].cell
  {
    var t2 := if pos in t1 && t1[pos].cell.Some? then DropDependent(t1, pos, Refs(t1, pos)) else t1;
    DropDependentKeys(t1, pos, Refs(t1, pos));
    DropDependentCell(t1, pos, Refs(t1, pos), p);
    assert p in t2 && t2[p].cell == t1[p].cell;
    var t3 := t2[pos := Entry(Lookup(t2, pos).edges, Some(c))];
    AddDependentAt(t3, pos, ReferencedCells(c), p);
  }

  /** Under the graph invariant, a commit at pos leaves no cache in any cell
      that reads pos, directly or through other cells. A position without an
      entry is read by no cell, so the branch of the code that places a cell
      at a fresh position has no reader left to reset. */
  lemma CommitInvalidatesReaders(t: Table, pos: Position, c: Content, p: Position)
    requires Invariant(t) && p != pos && Reaches(t, p, pos)
    ensures var r := Committed(t, pos, c);
      p in r && r[p].cell.Some? && (r[p].cell.value.FormulaCell? ==> r[p].cell.value.cache.None?)
  {
    var s :| IsPath(t, s) && s[0] == p && s[|s| - 1] == pos;
    LastStep(t, s);
    assert pos in t && p in t;
    ReaderInvalidated(t, pos, s);
    var t1 := ResetReachable(t, pos);
    assert t1[p] == ResetEntry(t[p]);
    CommittedIsRewired(t, pos, c);
    RewiredKeepsCell(t1, pos, c, p);
  }
}
