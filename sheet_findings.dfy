/** Concrete sequences of sheet operations, stated on the tables the sheet's
    methods are proved to produce, that show where the invariant stops
    holding after ClearCell and what the code does in those states. */
module SheetFindings {
  import opened Common
  import opened Formulas
  import opened Cells
  import opened SheetState
  import opened DependencyGraph
  import opened SheetSpec
  import opened SheetInvariants

  const A1 := Position(0, 0)
  const B1 := Position(0, 1)

  /** The cell of "=B1" and of "=A1". */
  const ReadsB1 := FormulaCell(Formula("B1", [B1]), None)
  const ReadsA1 := FormulaCell(Formula("A1", [A1]), None)

  /** The table after SetCell(A1, "=B1") on an empty sheet. */
  ghost const AfterA1ReadsB1 := Committed(map[], A1, ReadsB1)

  lemma AfterA1ReadsB1Shape()
    ensures Invariant(AfterA1ReadsB1)
    ensures AfterA1ReadsB1.Keys == {A1, B1}
    ensures Refs(AfterA1ReadsB1, A1) == [B1] && Refs(AfterA1ReadsB1, B1) == []
    ensures AfterA1ReadsB1[B1].edges == [A1] && AfterA1ReadsB1[A1].edges == []
  {
    var t0: Table := map[];
    EmptyTableInvariant();
    CommitPreservesInvariant(t0, A1, ReadsB1);
    CommittedKeys(t0, A1, ReadsB1);
    CommittedRefs(t0, A1, ReadsB1, A1);
    CommittedRefs(t0, A1, ReadsB1, B1);
    var t1 := t0[A1 := Entry([], Some(ReadsB1))];
    AddDependentAt(t1, A1, [B1], B1);
    AddDependentAt(t1, A1, [B1], A1);
    assert multiset([B1])[B1] == 1 && multiset([B1])[A1] == 0;
    assert Repeat(A1, 1) == [A1];
  }

  /** Both halves of ClearKeepsClosedIff and ClearKeepsTransposedIff are
      reached from an empty sheet: after SetCell(A1, "=B1"), clearing B1
      leaves A1 reading a position without an entry, and clearing A1 leaves
      A1 in the reverse edges of B1. */
  lemma ClearBreaksInvariantExample()
    ensures Invariant(AfterA1ReadsB1)
    ensures !Closed(Cleared(AfterA1ReadsB1, B1))
    ensures !Transposed(Cleared(AfterA1ReadsB1, A1))
  {
    AfterA1ReadsB1Shape();
    ClearKeepsClosedIff(AfterA1ReadsB1, B1);
    ClearKeepsTransposedIff(AfterA1ReadsB1, A1);
  }

  /** After SetCell(A1, "=B1") and ClearCell(B1), B1 has no entry, so the
      cycle check of SetCell(B1, "=A1") only looks for a self-reference and
      passes; yet A1 reaches B1, and the committed table has the cycle
      A1 -> B1 -> A1. */
  lemma ShortcutMissesCycleAfterClear()
    ensures var t1 := Cleared(AfterA1ReadsB1, B1);
      && !CycleFound(t1, B1, ReferencedCells(ReadsA1))
      && Reaches(t1, A1, B1)
      && !Acyclic(Committed(t1, B1, ReadsA1))
  {
    AfterA1ReadsB1Shape();
    var t1 := Cleared(AfterA1ReadsB1, B1);
    ClearedKeys(AfterA1ReadsB1, B1);
    ClearedRefs(AfterA1ReadsB1, B1, A1);
    assert B1 !in t1 && Refs(t1, A1) == [B1];
    ReachesRefl(t1, B1);
    ReachesStep(t1, A1, B1, B1);
    var t2 := Committed(t1, B1, ReadsA1);
    CommittedRefs(t1, B1, ReadsA1, A1);
    CommittedRefs(t1, B1, ReadsA1, B1);
    ReachesRefl(t2, A1);
    ReachesStep(t2, B1, A1, A1);
    BackEdgeCycle(t2, A1, B1);
  }

  // ---------------------------------------------------------------------------
  // ResetCache as written

  /** ResetCache as the code writes it: reset the cell at pos, then recurse
      into every position of its reverse edges, with no record of what was
      visited. fuel bounds the depth of recursion; None means it ran out. */
  function ResetCacheAsWritten(t: Table, pos: Position, fuel: nat): (r: Option<Table>)
    ensures r.Some? ==> r.value.Keys == t.Keys
    ensures pos !in t ==> r == Some(t)
    decreases fuel, 0
  {
    if pos !in t then Some(t)
    else if fuel == 0 then None
    else ResetEachAsWritten(t[pos := ResetEntry(t[pos])], t[pos].edges, fuel - 1)
  }

  function ResetEachAsWritten(t: Table, ps: seq<Position>, fuel: nat): (r: Option<Table>)
    ensures r.Some? ==> r.value.Keys == t.Keys
    decreases fuel, 1, |ps|
  {
    if ps == [] then Some(t)
    else
      match ResetCacheAsWritten(t, ps[0], fuel)
      case None => None
      case Some(t1) => ResetEachAsWritten(t1, ps[1..], fuel)
  }

  /** Two entries listing each other as reverse edges. */
  ghost predicate MutualEdges(t: Table, a: Position, b: Position) {
    a in t && b in t && t[a].edges == [b] && t[b].edges == [a]
  }

  /** On two entries that list each other, the recursion never returns. */
  lemma {:induction false} AsWrittenDiverges(t: Table, a: Position, b: Position, fuel: nat)
    requires MutualEdges(t, a, b)
    ensures ResetCacheAsWritten(t, a, fuel) == None
    decreases fuel
  {
    if fuel > 0 {
      var t1 := t[a := ResetEntry(t[a])];
      assert MutualEdges(t1, b, a);
      AsWrittenDiverges(t1, b, a, fuel - 1);
      assert ResetEachAsWritten(t1, [b], fuel - 1) == None;
    }
  }

  /** The table after SetCell(A1, "=B1") and ClearCell(A1): B1 alone, with
      the stale reverse edge to A1. */
  lemma ClearedA1Shape()
    ensures var t1 := Cleared(AfterA1ReadsB1, A1);
      && t1.Keys == {B1} && t1[B1].edges == [A1] && t1[B1].cell.Some? && Refs(t1, B1) == []
      && Acyclic(t1) && !Reaches(t1, A1, B1)
  {
    AfterA1ReadsB1Shape();
    var t := AfterA1ReadsB1;
    var t1 := Cleared(t, A1);
    ClearedKeys(t, A1);
    ClearPreservesAcyclic(t, A1);
    ClearedRefs(t, A1, B1);
    assert t1.Keys == {B1} && t1[B1].edges == [A1] && t1[B1].cell.Some? && Refs(t1, B1) == [];
    assert !Reaches(t1, A1, B1) by {
      if Reaches(t1, A1, B1) {
        NoRefsReachOnlySelf(t1, A1, B1);
      }
    }
  }

  /** Then SetCell(B1, "=A1") leaves A1 and B1 in each other's reverse edges. */
  lemma ThenB1ReadsA1Shape(t1: Table)
    requires t1.Keys == {B1} && t1[B1].edges == [A1] && t1[B1].cell.Some? && Refs(t1, B1) == []
    ensures var t2 := Committed(t1, B1, ReadsA1);
      MutualEdges(t2, B1, A1) && t2[B1].cell.Some?
  {
    var t2 := Committed(t1, B1, ReadsA1);
    CommittedHolds(t1, B1, ReadsA1);
    var r1 := ResetReachable(t1, B1);
    var d := DropDependent(r1, B1, Refs(r1, B1));
    assert d == r1;
    var t3 := d[B1 := Entry(Lookup(d, B1).edges, Some(ReadsA1))];
    assert t2 == AddDependent(t3, B1, [A1]);
    assert t3.Keys == {B1} && t3[B1].edges == [A1];
    AddDependentAt(t3, B1, [A1], A1);
    AddDependentAt(t3, B1, [A1], B1);
    assert multiset([A1])[A1] == 1 && multiset([A1])[B1] == 0;
    assert Repeat(B1, 1) == [B1];
  }

  /** The forward graph of that commit is still acyclic. */
  lemma ThenB1ReadsA1Acyclic(t1: Table)
    requires Acyclic(t1) && B1 in t1 && !Reaches(t1, A1, B1)
    ensures Acyclic(Committed(t1, B1, ReadsA1))
  {
    var t2 := Committed(t1, B1, ReadsA1);
    forall x | x != B1 ensures Refs(t2, x) == Refs(t1, x) {
      CommittedRefs(t1, B1, ReadsA1, x);
    }
    CommittedRefs(t1, B1, ReadsA1, B1);
    AcyclicAfterRewire(t1, t2, B1);
  }

  /** SetCell(A1, "=B1"); ClearCell(A1); SetCell(B1, "=A1") is accepted at
      every step and leaves A1 and B1 in each other's reverse edges (A1's are
      fresh from the last commit, B1's are the stale edge the clear left).
      The forward graph stays acyclic, but the ResetCache that the next
      SetCell(B1, ...) or ClearCell(B1) starts never returns, while the
      reset the sheet is modelled with is a plain value. */
  lemma ResetCacheDivergesAfterClear(fuel: nat)
    ensures var t1 := Cleared(AfterA1ReadsB1, A1);
      var t2 := Committed(t1, B1, ReadsA1);
      && !CycleFound(t1, B1, ReferencedCells(ReadsA1))
      && Acyclic(t2)
      && MutualEdges(t2, B1, A1)
      && B1 in t2 && t2[B1].cell.Some?
      && ResetCacheAsWritten(t2, B1, fuel) == None
      && ResetReachable(t2, B1).Keys == t2.Keys
  {
    var t1 := Cleared(AfterA1ReadsB1, A1);
    ClearedA1Shape();
    ThenB1ReadsA1Shape(t1);
    ThenB1ReadsA1Acyclic(t1);
    AsWrittenDiverges(Committed(t1, B1, ReadsA1), B1, A1, fuel);
  }

  // ---------------------------------------------------------------------------
  // Entries without a cell

  /** The colour search as the code writes it, for a candidate with
      references refs at a position with an entry: the first reference is
      White, so the search enters it and, when it has an entry, reads the
      references of that entry's cell. This holds when that cell is missing. */
  ghost predicate SearchReadsMissingCell(t: Table, pos: Position, refs: seq<Position>) {
    pos in t && |refs| > 0 && refs[0] != pos && refs[0] in t && t[refs[0]].cell.None?
  }

  /** SetCell(A1, "=B1"); ClearCell(B1); SetCell(A1, "x") is accepted at every
      step, and the last one, taking A1 out of the reverse edges of its old
      dependency B1, creates an entry for B1 that has no cell. A following
      SetCell(A1, "=B1") finds an entry at A1 and so runs the colour search
      from B1, which reads the references of B1's missing cell. */
  lemma CellessEntryAfterClear()
    ensures var t1 := Cleared(AfterA1ReadsB1, B1);
      var t2 := Committed(t1, A1, Text("x"));
      && !CycleFound(t1, A1, ReferencedCells(Text("x")))
      && A1 in t2 && B1 in t2 && t2[B1].cell.None?
      && !NoNullCells(t2)
      && SearchReadsMissingCell(t2, A1, ReferencedCells(ReadsB1))
  {
    AfterA1ReadsB1Shape();
    var t := AfterA1ReadsB1;
    var t1 := Cleared(t, B1);
    ClearedKeys(t, B1);
    ClearedRefs(t, B1, A1);
    TextReplacesReader(t1);
  }

  /** On a table where A1 alone reads B1, which has no entry, SetCell(A1, "x")
      creates an entry for B1 without a cell. */
  lemma TextReplacesReader(t1: Table)
    requires t1.Keys == {A1} && t1[A1].cell.Some? && Refs(t1, A1) == [B1]
    ensures var t2 := Committed(t1, A1, Text("x"));
      A1 in t2 && B1 in t2 && t2[B1].cell.None?
  {
    var t2 := Committed(t1, A1, Text("x"));
    var r1 := ResetReachable(t1, A1);
    assert Refs(r1, A1) == [B1];
    var d := DropDependent(r1, A1, [B1]);
    DropDependentKeys(r1, A1, [B1]);
    DropDependentCell(r1, A1, [B1], B1);
    assert B1 in d && d[B1].cell.None?;
    var t3 := d[A1 := Entry(Lookup(d, A1).edges, Some(Text("x")))];
    assert t2 == t3;
  }

  // ---------------------------------------------------------------------------
  // A reader that keeps its cache

  /** SetCell(A1, "=B1"); ClearCell(B1) leaves A1 reading B1, which has no
      entry; GetValue on A1 then fills its cache. SetCell(B1, "5") is accepted
      and places the cell at a fresh position, the branch of the code that
      resets no cache, so A1 still reads B1 and still holds the value computed
      before B1 was set: B1's new entry lists no reader. Under the graph
      invariant this cannot happen (CommitInvalidatesReaders). */
  lemma StaleCacheAfterClear(evaluate: Evaluator)
    ensures var t1 := Cleared(AfterA1ReadsB1, B1);
      var ta := t1[A1 := Entry(Lookup(t1, A1).edges, Some(GetValueOf(ReadsB1, evaluate).1))];
      var t2 := Committed(ta, B1, Text("5"));
      && A1 in t1 && t1[A1].cell == Some(ReadsB1)
      && !CycleFound(ta, B1, ReferencedCells(Text("5")))
      && A1 in t2 && B1 in t2 && t2[B1].cell == Some(Text("5")) && t2[B1].edges == []
      && Refs(t2, A1) == [B1] && t2[A1].cell.value.cache.Some?
  {
    AfterA1ReadsB1Shape();
    CommittedHolds(map[], A1, ReadsB1);
    var t := AfterA1ReadsB1;
    var t1 := Cleared(t, B1);
    ClearedKeys(t, B1);
    assert t1[A1].cell == Some(ReadsB1);
    var ta := t1[A1 := Entry(Lookup(t1, A1).edges, Some(GetValueOf(ReadsB1, evaluate).1))];
    assert B1 !in ta;
    var t2 := Committed(ta, B1, Text("5"));
    assert t2 == ta[B1 := Entry([], Some(Text("5")))];
  }
}
