/** The sheet: a table of vertices keyed by position, and the printable size.
    Each operation is proved to change the table's value exactly as the
    functions of SheetSpec say, and to keep the sheet's own invariant Valid. */
module Sheets {
  import opened Common
  import opened Formulas
  import opened Cells
  import opened SheetState
  import opened DependencyGraph
  import opened SheetSpec
  import opened CycleSearch
  import opened SheetInvariants

  function Max(a: int, b: int): (m: int)
    ensures m >= a && m >= b && (m == a || m == b)
  {
    if a >= b then a else b
  }

  /** One step of DropDependents, at index k of refs: the loop's invariant
      holds for the table with refs[k] rewired. */
  lemma DropLoopStep(tbl: map<Position, Vertex>, r: map<Position, Vertex>, pos: Position, refs: seq<Position>, k: int)
    requires 0 <= k < |refs| && Owned(r) && CellsValid(r) && CellsOf(r) == CellsOf(tbl)
    requires DropDependent(Snapshot(r), pos, refs[k..]) == DropDependent(Snapshot(tbl), pos, refs)
    ensures var i := refs[k];
      var v := if i in r then r[i] else Vertex([], null);
      var r' := r[i := Vertex(RemoveFirst(v.edges, pos), v.formula)];
      && Owned(r') && CellsValid(r') && CellsOf(r') == CellsOf(tbl)
      && DropDependent(Snapshot(r'), pos, refs[k + 1..]) == DropDependent(Snapshot(tbl), pos, refs)
  {
    var i := refs[k];
    var v := if i in r then r[i] else Vertex([], null);
    DropVertexStep(r, pos, refs, k);
    EdgesUpdateKeepsCells(r, i, Vertex(RemoveFirst(v.edges, pos), v.formula));
  }

  /** Takes one occurrence of pos out of the reverse edges of each position
      in refs, in order; a position without an entry gets one without a cell,
      as a lookup by operator[] does. The cells themselves are not touched. */
  method DropDependents(tbl: map<Position, Vertex>, pos: Position, refs: seq<Position>)
    returns (r: map<Position, Vertex>)
    requires Owned(tbl) && CellsValid(tbl)
    ensures Owned(r) && CellsValid(r) && CellsOf(r) == CellsOf(tbl)
    ensures Snapshot(r) == DropDependent(Snapshot(tbl), pos, refs)
  {
    r := tbl;
    var k := 0;
    while k < |refs|
      invariant 0 <= k <= |refs|
      invariant Owned(r) && CellsValid(r) && CellsOf(r) == CellsOf(tbl)
      invariant DropDependent(Snapshot(r), pos, refs[k..]) == DropDependent(Snapshot(tbl), pos, refs)
    {
      var i := refs[k];
      var v := if i in r then r[i] else Vertex([], null);
      DropLoopStep(tbl, r, pos, refs, k);
      r := r[i := Vertex(RemoveFirst(v.edges, pos), v.formula)];
      k := k + 1;
    }
  }

  /** One step of AddDependents, at index k of refs, cell being the vertex's
      own cell or, when it has none, a new Empty one. */
  lemma AddLoopStep(t0: Table, r: map<Position, Vertex>, pos: Position, refs: seq<Position>, k: int, cell: Cell)
    requires 0 <= k < |refs| && Owned(r) && CellsValid(r)
    requires AddDependent(Snapshot(r), pos, refs[k..]) == AddDependent(t0, pos, refs)
    requires var i := refs[k];
      if i in r && r[i].formula != null then cell == r[i].formula else cell.impl == Empty && cell !in CellsOf(r)
    ensures var i := refs[k];
      var v := if i in r then r[i] else Vertex([], null);
      var r' := r[i := Vertex(v.edges + [pos], cell)];
      && Owned(r') && CellsValid(r')
      && AddDependent(Snapshot(r'), pos, refs[k + 1..]) == AddDependent(t0, pos, refs)
  {
    var i := refs[k];
    var v := if i in r then r[i] else Vertex([], null);
    if i in r && r[i].formula != null {
      EdgesUpdateKeepsCells(r, i, Vertex(v.edges + [pos], cell));
    } else {
      NewCellKeepsOwnership(r, i, Vertex(v.edges + [pos], cell));
    }
    AddVertexStep(r, pos, refs, k, cell);
  }

  /** Appends pos to the reverse edges of each position in refs, in order,
      and gives a new Empty cell to each one that has none. */
  method AddDependents(tbl: map<Position, Vertex>, pos: Position, refs: seq<Position>)
    returns (r: map<Position, Vertex>)
    requires Owned(tbl) && CellsValid(tbl)
    ensures Owned(r) && CellsValid(r)
    ensures Snapshot(r) == AddDependent(old(Snapshot(tbl)), pos, refs)
  {
    ghost var t0 := Snapshot(tbl);
    r := tbl;
    var k := 0;
    while k < |refs|
      invariant 0 <= k <= |refs|
      invariant Owned(r) && CellsValid(r)
      invariant AddDependent(Snapshot(r), pos, refs[k..]) == AddDependent(t0, pos, refs)
    {
      r := AddDependentAtIndex(t0, r, pos, refs, k);
      k := k + 1;
    }
  }

  /** The body of AddDependents for refs[k]: pos joins its reverse edges, and
      a new Empty cell is made for it when it has none. */
  method AddDependentAtIndex(ghost t0: Table, r: map<Position, Vertex>, pos: Position, refs: seq<Position>, k: int)
    returns (r': map<Position, Vertex>)
    requires 0 <= k < |refs| && Owned(r) && CellsValid(r)
    requires AddDependent(Snapshot(r), pos, refs[k..]) == AddDependent(t0, pos, refs)
    ensures Owned(r') && CellsValid(r')
    ensures AddDependent(Snapshot(r'), pos, refs[k + 1..]) == AddDependent(t0, pos, refs)
  {
    var i := refs[k];
    var v := if i in r then r[i] else Vertex([], null);
    var cell := v.formula;
    if cell == null {
      ghost var cur := Snapshot(r);
      cell := new Cell();
      assert Snapshot(r) == cur;
    }
    AddLoopStep(t0, r, pos, refs, k, cell);
    r' := r[i := Vertex(v.edges + [pos], cell)];
  }

  /** The rewiring of a commit on a table of vertices: DropDependents for the
      old cell of pos, if it has one, then newCell in its place, then
      AddDependents for newCell. */
  method Rewire(tbl: map<Position, Vertex>, pos: Position, newCell: Cell) returns (r: map<Position, Vertex>)
    requires Owned(tbl) && CellsValid(tbl) && newCell.Valid() && newCell !in CellsOf(tbl)
    ensures Owned(r) && CellsValid(r)
    ensures Snapshot(r) == Rewired(old(Snapshot(tbl)), pos, newCell.impl)
  {
    ghost var t := Snapshot(tbl);
    var base := tbl;
    if pos in tbl && tbl[pos].formula != null {
      var oldRefs := tbl[pos].formula.GetReferencedCells();
      assert oldRefs == Refs(t, pos);
      base := DropDependents(tbl, pos, oldRefs);
      DropDependentKeys(t, pos, oldRefs);
    }
    ghost var before := Snapshot(base);
    var v := Vertex(if pos in base then base[pos].edges else [], newCell);
    SnapshotUpdate(base, pos, v);
    NewCellKeepsOwnership(base, pos, v);
    assert Snapshot(base[pos := v]) == before[pos := Entry(Lookup(before, pos).edges, Some(newCell.impl))];
    r := AddDependents(base[pos := v], pos, newCell.GetReferencedCells());
  }

  /** The smallest size from (0, 0) holding every position of keys, found
      by one pass over the keys in some order, widening as needed. */
  method BoundingBox(keys: set<Position>) returns (box: Size)
    ensures IsBoundingBox(keys, box)
  {
    box := Size(0, 0);
    var rest := keys;
    while rest != {}
      invariant rest <= keys
      invariant IsBoundingBox(keys - rest, box)
      decreases rest
    {
      var p :| p in rest;
      if p.col + 1 > box.cols {
        box := box.(cols := p.col + 1);
      }
      if p.row + 1 > box.rows {
        box := box.(rows := p.row + 1);
      }
      rest := rest - {p};
    }
  }

  class Sheet {
    var table: map<Position, Vertex>
    var size: Size

    /** What every sheet keeps: each entry owns its cell, every cell is well
        formed, and the printable size covers every text or formula. The
        dependency-graph Invariant is not part of it: ClearCell can break it. */
    ghost predicate Valid()
      reads this, CellsOf(table)
    {
      && Owned(table)
      && CellsValid(table)
      && size.rows >= 0 && size.cols >= 0
      && Covered(Contents(), size)
    }

    /** The value of the table in the current heap. */
    ghost function Contents(): Table
      reads this`table, CellsOf(table)
    {
      Snapshot(table)
    }

    /** A new sheet has no entries and size 0 x 0. */
    constructor ()
      ensures Valid() && table == map[] && size == Size(0, 0)
      ensures Invariant(Contents())
    {
      table := map[];
      size := Size(0, 0);
      new;
      EmptyTableInvariant();
    }

    /** The cell at pos: an invalid position fails, a position without an
        entry reads as null, and otherwise the entry's cell (null for an entry
        without one). Models both overloads. */
    function GetCell(pos: Position): (r: Result<Cell?>)
      reads this, CellsOf(table)
      ensures !IsValid(pos) <==> r == Failure(InvalidPosition)
      ensures r.Success? && r.value != null ==> pos in Contents() && Contents()[pos].cell == Some(r.value.impl)
      ensures r.Success? && r.value == null ==> pos !in Contents() || Contents()[pos].cell.None?
      ensures r.Success? ==> r.value == null || r.value in CellsOf(table)
    {
      if !IsValid(pos) then Failure(InvalidPosition)
      else if pos !in table then Success(null)
      else Success(table[pos].formula)
    }

    /** The printable size; it covers every text and formula of the sheet. */
    function GetPrintableSize(): (s: Size)
      reads this, CellsOf(table)
      ensures Valid() ==> s.rows >= 0 && s.cols >= 0 && Covered(Contents(), s)
    {
      size
    }

    /** Drops the cache of pos and of every position reachable from it along
        reverse edges, each once. The recursion of the code has no record of
        what it visited; this walk keeps a visited set (see README, Findings),
        and resets the cells it collected once the walk is over, which leaves
        the same caches dropped. A position without an entry ends the walk, as
        in the code; an entry without a cell has nothing to drop. */
    method ResetCache(pos: Position)
      requires Owned(table) && CellsValid(table)
      modifies CellsOf(table)
      ensures CellsValid(table)
      ensures Contents() == ResetReachable(old(Contents()), pos)
    {
      if pos !in table {
        return;
      }
      ghost var t0 := Contents();
      var reached := CollectInvalidated(t0, pos);
      ResetEach(t0, reached);
      ResetClosedSet(t0, pos, reached);
    }

    /** The positions whose caches a change at pos invalidates: a worklist
        walk along reverse edges from pos, through entries only. */
    method CollectInvalidated(ghost t0: Table, pos: Position) returns (visited: set<Position>)
      requires pos in table && t0.Keys == table.Keys
      requires forall v :: v in table ==> t0[v].edges == table[v].edges
      ensures pos in visited && visited <= t0.Keys
      ensures forall v :: v in visited ==> Invalidated(t0, pos, v)
      ensures forall v, q :: v in visited && q in t0[v].edges && q in t0 ==> q in visited
    {
      assert IsEdgePath(t0, [pos]);
      visited := {pos};
      var pending: set<Position> := {pos};
      while pending != {}
        invariant WalkInvariant(t0, pos, visited, pending)
        decreases t0.Keys - visited, |pending|
      {
        visited, pending := WalkStep(t0, pos, visited, pending);
      }
      assert visited - pending == visited;
    }

    /** One step of the walk: take a pending position and discover its
        reverse edges. */
    method WalkStep(ghost t0: Table, ghost pos: Position, visited: set<Position>, pending: set<Position>)
      returns (visited': set<Position>, pending': set<Position>)
      requires t0.Keys == table.Keys && forall v :: v in table ==> t0[v].edges == table[v].edges
      requires pending != {} && WalkInvariant(t0, pos, visited, pending)
      ensures WalkInvariant(t0, pos, visited', pending')
      ensures t0.Keys - visited' < t0.Keys - visited || (visited' == visited && |pending'| < |pending|)
    {
      var p :| p in pending;
      visited', pending' := Discover(t0, pos, p, visited, pending - {p});
      WalkAdvance(t0, pos, visited, pending, p, visited', pending');
    }

    /** Drops the cache of every cell at a position of ps. */
    method ResetEach(ghost t0: Table, ps: set<Position>)
      requires t0 == Contents() && ps <= table.Keys
      requires Owned(table) && CellsValid(table)
      modifies CellsOf(table)
      ensures CellsValid(table)
      ensures Contents() == ResetAt(t0, ps)
    {
      var rest := ps;
      while rest != {}
        invariant rest <= ps
        invariant CellsValid(table)
        invariant Contents() == ResetAt(t0, ps - rest)
        decreases rest
      {
        var p :| p in rest;
        ResetOne(p);
        ResetAtInsert(t0, ps - rest, p);
        assert (ps - rest) + {p} == ps - (rest - {p});
        rest := rest - {p};
      }
    }

    /** Adds to visited and pending every position with an entry that the
        reverse edges of p list and that was not visited yet. */
    method Discover(ghost t0: Table, ghost pos: Position, p: Position, visited: set<Position>, pending: set<Position>)
      returns (visited': set<Position>, pending': set<Position>)
      requires p in table && p in t0 && t0[p].edges == table[p].edges && t0.Keys == table.Keys
      requires Invalidated(t0, pos, p)
      requires visited <= t0.Keys && forall v :: v in visited ==> Invalidated(t0, pos, v)
      ensures visited <= visited' <= t0.Keys
      ensures pending' == pending + (visited' - visited)
      ensures forall v :: v in visited' ==> Invalidated(t0, pos, v)
      ensures forall q :: q in t0[p].edges && q in t0 ==> q in visited'
    {
      var edges := table[p].edges;
      visited', pending' := visited, pending;
      var i := 0;
      while i < |edges|
        invariant 0 <= i <= |edges|
        invariant visited <= visited' <= t0.Keys
        invariant pending' == pending + (visited' - visited)
        invariant forall v :: v in visited' ==> Invalidated(t0, pos, v)
        invariant forall j :: 0 <= j < i && edges[j] in t0 ==> edges[j] in visited'
      {
        var q := edges[i];
        if q in table && q !in visited' {
          InvalidatedStep(t0, pos, p, q);
          visited' := visited' + {q};
          pending' := pending' + {q};
        }
        i := i + 1;
      }
    }

    /** Drops the cache of the cell at p, if it has one. */
    method ResetOne(p: Position)
      requires p in table && Owned(table) && CellsValid(table)
      modifies CellsOf(table)
      ensures CellsValid(table)
      ensures Contents() == old(Contents())[p := ResetEntry(old(Contents())[p])]
    {
      var cell := table[p].formula;
      if cell != null {
        assert cell in CellsOf(table);
        cell.ResetValue();
      }
    }
  
    /** The colour search below u, as the code runs it: u turns Grey, its
        forward edges are searched in order, a White one recursively, and
        the search stops at the first Grey one; u turns Black when none was
        Grey. A position without an entry turns Black at once, and so does an
        entry without a cell. The search changes nothing in the sheet, and
        terminates because every call colours one more entry. Under an
        acyclic graph it leaves u Grey exactly when u reaches root. */
    method CheckCycleDependencies(ghost t: Table, colors: map<Position, Color>, u: Position, ghost root: Position)
      returns (colors': map<Position, Color>)
      requires t == Contents() && MayEnter(t, colors, u, root)
      ensures Contents() == t && SearchedFrom(t, colors, colors', u, root)
      decreases t.Keys - colors.Keys
    {
      colors' := colors[u := Grey];
      if u !in table {
        SearchNoEntry(t, colors, u, root);
        colors' := colors'[u := Black];
        return;
      }
      var cell := table[u].formula;
      var refs := if cell == null then [] else cell.GetReferencedCells();
      assert refs == Refs(t, u);
      SearchStart(t, colors, u, root);
      var i := 0;
      while i < |refs|
        invariant t == Contents() && refs == Refs(t, u)
        invariant Searching(t, colors, colors', u, root, i)
      {
        var w := refs[i];
        var c := ColorOf(colors', w);
        if c == White {
          SearchDescend(t, colors, colors', u, root, i);
          ghost var before := colors';
          colors' := CheckCycleDependencies(t, colors', w, root);
          if colors'[w] == Grey {
            SearchReturnsGrey(t, colors, before, colors', u, root, i);
            return;
          }
          SearchReturnsBlack(t, colors, before, colors', u, root, i);
        } else if c == Grey {
          SearchMeetsGrey(t, colors, colors', u, root, i);
          return;
        } else {
          SearchSkipsBlack(t, colors, colors', u, root, i);
        }
        i := i + 1;
      }
      SearchDone(t, colors, colors', u, root);
      colors' := colors'[u := Black];
    }

    /** The cycle check of SetCell for a new cell at pos. Without an entry at
        pos it only looks for pos among the new cell's references. Otherwise
        it colours pos Grey and searches from each reference in order, and
        reports a cycle when one of them ends Grey. Reporting no cycle is
        always sound; under an acyclic graph the search is also complete. */
    method CheckIfHasCycleDependencies(newCell: Cell, pos: Position) returns (b: bool)
      ensures pos !in table ==> (b <==> pos in newCell.GetReferencedCells())
      ensures pos in table && !b ==> forall r :: r in newCell.GetReferencedCells() ==> !Reaches(Contents(), r, pos)
      ensures pos !in table || Acyclic(Contents()) ==> (b <==> CycleFound(Contents(), pos, newCell.GetReferencedCells()))
    {
      ghost var t := Contents();
      var refs := newCell.GetReferencedCells();
      if pos !in table {
        return pos in refs;
      }
      var colors := map[pos := Grey];
      TopStart(t, pos, refs);
      var i := 0;
      while i < |refs|
        invariant t == Contents() && refs == newCell.GetReferencedCells()
        invariant TopSearching(t, colors, pos, refs, i)
      {
        var r := refs[i];
        var c := ColorOf(colors, r);
        if c == White {
          TopDescend(t, colors, pos, refs, i);
          ghost var before := colors;
          colors := CheckCycleDependencies(t, colors, r, pos);
          if colors[r] == Grey {
            TopReturnsGrey(t, before, colors, pos, refs, i);
            return true;
          }
          TopReturnsBlack(t, before, colors, pos, refs, i);
        } else if c == Grey {
          TopMeetsGrey(t, colors, pos, refs, i);
          return true;
        } else {
          TopSkipsBlack(t, colors, pos, refs, i);
        }
        i := i + 1;
      }
      TopDone(t, colors, pos, refs);
      return false;
    }

    /** SetCell(pos, text): an invalid position fails; so does a text the
        parser refuses, and a new cell the cycle check rejects, each before
        anything changes. Otherwise the size grows to hold pos and the table
        becomes Committed. */
    method SetCell(pos: Position, text: string, parse: Parser) returns (r: Outcome)
      requires Valid() && |text| > 0
      modifies this, CellsOf(table)
      ensures Valid()
      ensures !IsValid(pos) ==> r == Fail(InvalidPosition)
      ensures IsValid(pos) && Classify(text, parse).Failure? ==> r == Fail(FormulaSyntax)
      ensures IsValid(pos) && Classify(text, parse).Success? ==> r == Pass || r == Fail(CircularDependency)
      ensures r.Fail? ==> table == old(table) && size == old(size) && Contents() == old(Contents())
      ensures r == Fail(CircularDependency) && pos !in old(table) ==> pos in ReferencedCells(Classify(text, parse).value)
      ensures r == Pass ==>
        && IsValid(pos) && Classify(text, parse).Success?
        && pos !in ReferencedCells(Classify(text, parse).value)
        && (pos in old(table) ==> forall x :: x in ReferencedCells(Classify(text, parse).value) ==> !Reaches(old(Contents()), x, pos))
        && Contents() == Committed(old(Contents()), pos, Classify(text, parse).value)
        && size == Size(Max(pos.row + 1, old(size).rows), Max(pos.col + 1, old(size).cols))
      ensures IsValid(pos) && Classify(text, parse).Success? && (pos !in old(table) || Acyclic(old(Contents()))) ==>
        (r == Fail(CircularDependency) <==> CycleFound(old(Contents()), pos, ReferencedCells(Classify(text, parse).value)))
      ensures r == Pass && Invariant(old(Contents())) ==> Invariant(Contents())
    {
      if !IsValid(pos) {
        return Fail(InvalidPosition);
      }
      var newCell := new Cell();
      assert Contents() == old(Contents());
      r := newCell.Set(text, parse);
      if r.Fail? {
        return;
      }
      assert Contents() == old(Contents());
      var cycle := CheckIfHasCycleDependencies(newCell, pos);
      if cycle {
        return Fail(CircularDependency);
      }
      ReachesRefl(old(Contents()), pos);
      Grow(pos);
      Commit(pos, newCell);
      if Invariant(old(Contents())) {
        CommitPreservesInvariant(old(Contents()), pos, newCell.impl);
      }
    }

    /** The size grows to hold pos; the table is untouched. */
    method Grow(pos: Position)
      requires size.rows >= 0 && size.cols >= 0 && Covered(Contents(), size)
      modifies this`size
      ensures table == old(table) && Contents() == old(Contents())
      ensures size == Size(Max(pos.row + 1, old(size).rows), Max(pos.col + 1, old(size).cols))
      ensures size.rows >= 0 && size.cols >= 0 && Covered(Contents(), size)
    {
      CoveredGrows(Contents(), size, Size(Max(pos.row + 1, size.rows), Max(pos.col + 1, size.cols)));
      size := Size(Max(pos.row + 1, size.rows), Max(pos.col + 1, size.cols));
    }

    /** The table part of a successful SetCell: the caches downstream of a
        present cell are dropped, then the table is rewired around the new
        cell, as Committed says; the size still covers. */
    method Commit(pos: Position, newCell: Cell)
      requires Owned(table) && CellsValid(table) && newCell.Valid() && newCell !in CellsOf(table)
      requires Covered(Contents(), size) && pos.row < size.rows && pos.col < size.cols
      modifies this`table, CellsOf(table)
      ensures Owned(table) && CellsValid(table)
      ensures Contents() == Committed(old(Contents()), pos, newCell.impl)
      ensures Covered(Contents(), size)
    {
      ghost var t := Contents();
      ghost var c := newCell.impl;
      if pos in table && table[pos].formula != null {
        ResetCache(pos);
      }
      ghost var t1 := Contents();
      assert t1 == if pos in t && t[pos].cell.Some? then ResetReachable(t, pos) else t;
      var added := Rewire(table, pos, newCell);
      ghost var e := Snapshot(added);
      table := added;
      assert Contents() == e;
      assert Contents() == Committed(t, pos, c) by {
        CommittedIsRewired(t, pos, c);
      }
      assert Covered(Contents(), size) by {
        CommittedCovered(t, pos, c, size);
      }
    }

    /** ClearCell(pos): an invalid position fails. A position without an entry
        or without a cell is left alone. Otherwise the caches downstream of
        pos are dropped and the entry of pos is erased, reverse edges and all;
        when pos was on the last row or column the size is rebuilt as the
        bounding box of the remaining entries, placeholders included, which
        BoundingBoxUnique shows is a single size. */
    method ClearCell(pos: Position) returns (r: Outcome)
      requires Valid()
      modifies this, CellsOf(table)
      ensures Valid()
      ensures !IsValid(pos) ==> r == Fail(InvalidPosition) && table == old(table) && size == old(size) && Contents() == old(Contents())
      ensures IsValid(pos) ==> r == Pass && Contents() == Cleared(old(Contents()), pos)
      ensures IsValid(pos) ==> GetCell(pos) == Success(null)
      ensures IsValid(pos) && (pos !in old(table) || old(table)[pos].formula == null) ==>
        table == old(table) && size == old(size)
      ensures IsValid(pos) && pos in old(table) && old(table)[pos].formula != null ==>
        if old(size).cols == pos.col + 1 || old(size).rows == pos.row + 1 then IsBoundingBox(table.Keys, size)
        else size == old(size)
    {
      if !IsValid(pos) {
        return Fail(InvalidPosition);
      }
      r := Pass;
      if pos !in table || table[pos].formula == null {
        return;
      }
      ClearEntry(pos);
      // The second erase of the code finds no entry of pos: it changes nothing.
      assert pos !in table;
    }

    /** The work of ClearCell on an entry with a cell: drop the caches
        downstream of pos, erase the entry, and rebuild the size when pos was
        on its last row or column. */
    method ClearEntry(pos: Position)
      requires Valid() && pos in table && table[pos].formula != null
      modifies this, CellsOf(table)
      ensures Valid() && pos !in table
      ensures Contents() == Cleared(old(Contents()), pos)
      ensures if old(size).cols == pos.col + 1 || old(size).rows == pos.row + 1 then IsBoundingBox(table.Keys, size)
        else size == old(size)
    {
      ghost var t := Contents();
      ResetCache(pos);
      ghost var t1 := Contents();
      Erase(pos);
      assert Contents() == Cleared(t, pos) by {
        assert t1 == ResetReachable(t, pos) && t[pos].cell.Some?;
      }
      ClearedCovered(t, pos, size);
      Resize(pos);
    }

    /** Erases the entry of pos, if any. */
    method Erase(pos: Position)
      requires Owned(table) && CellsValid(table)
      modifies this`table
      ensures table == old(table) - {pos}
      ensures Owned(table) && CellsValid(table)
      ensures Contents() == old(Contents()) - {pos}
    {
      SnapshotRemove(table, pos);
      EraseKeepsCells(table, pos);
      ghost var e := Snapshot(table - {pos});
      table := table - {pos};
      assert Contents() == e;
    }

    /** After an erase at pos: when pos was on the last row or column, the
        size becomes the bounding box of the remaining entries. */
    method Resize(pos: Position)
      requires size.rows >= 0 && size.cols >= 0 && Covered(Contents(), size)
      modifies this`size
      ensures table == old(table) && Contents() == old(Contents())
      ensures size.rows >= 0 && size.cols >= 0 && Covered(Contents(), size)
      ensures if old(size).cols == pos.col + 1 || old(size).rows == pos.row + 1 then IsBoundingBox(table.Keys, size)
        else size == old(size)
    {
      if size.cols == pos.col + 1 || size.rows == pos.row + 1 {
        size := BoundingBox(table.Keys);
        BoundingBoxCovers(Contents(), size);
      }
    }
  }
}
