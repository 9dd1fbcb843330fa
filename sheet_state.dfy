/** The state a sheet keeps: its table of vertices keyed by position, and the
    colours its cycle search uses. A vertex holds the positions whose formulas
    read it (its reverse edges, in insertion order) and its cell, which is null
    for an entry that was created by a lookup and never given a cell. */
module SheetState {
  import opened Common
  import opened Cells

  datatype Vertex = Vertex(edges: seq<Position>, formula: Cell?)

  /** The value of one vertex: reverse edges and the cell's content, if any. */
  datatype Entry = Entry(edges: seq<Position>, cell: Option<Content>)

  /** The value of a whole table; all reasoning about the graph is on tables. */
  type Table = map<Position, Entry>

  /** The cell objects a table owns. */
  function CellsOf(t: map<Position, Vertex>): set<Cell> {
    set p | p in t && t[p].formula != null :: t[p].formula
  }

  /** The value of a table of vertices in the current heap. */
  ghost function Snapshot(t: map<Position, Vertex>): (s: Table)
    reads CellsOf(t)
    ensures s.Keys == t.Keys
    ensures forall p :: p in t ==> s[p].edges == t[p].edges
    ensures forall p :: p in t ==> (s[p].cell.Some? <==> t[p].formula != null)
  {
    map p | p in t :: Entry(t[p].edges, if t[p].formula == null then None else Some(t[p].formula.impl))
  }

  /** Each entry owns its cell: no two positions share a cell object. */
  predicate Owned(t: map<Position, Vertex>) {
    forall p, q :: p in t && q in t && p != q && t[p].formula != null ==> t[p].formula != t[q].formula
  }

  ghost predicate CellsValid(t: map<Position, Vertex>)
    reads CellsOf(t)
  {
    forall p :: p in t && t[p].formula != null ==> t[p].formula.Valid()
  }

  /** Colours of the cycle search. White comes first, so a position the colour
      map has never seen reads as White. */
  datatype Color = White | Black | Grey

  function ColorOf(colors: map<Position, Color>, p: Position): Color {
    if p in colors then colors[p] else White
  }

  /** The search only ever stores Grey and Black. */
  predicate NoWhiteStored(colors: map<Position, Color>) {
    forall p :: p in colors ==> colors[p] != White
  }

  /** Replacing one vertex replaces one entry of the value. */
  lemma SnapshotUpdate(t: map<Position, Vertex>, i: Position, v: Vertex)
    ensures Snapshot(t[i := v]) ==
      Snapshot(t)[i := Entry(v.edges, if v.formula == null then None else Some(v.formula.impl))]
  {
  }

  /** Erasing one vertex erases one entry of the value. */
  lemma SnapshotRemove(t: map<Position, Vertex>, i: Position)
    ensures Snapshot(t - {i}) == Snapshot(t) - {i}
  {
  }

  /** Rewiring the reverse edges of one vertex, or adding a vertex without a
      cell, keeps the cells and their ownership. */
  lemma EdgesUpdateKeepsCells(t: map<Position, Vertex>, i: Position, v: Vertex)
    requires if i in t then v.formula == t[i].formula else v.formula == null
    ensures CellsOf(t[i := v]) == CellsOf(t)
    ensures Owned(t) ==> Owned(t[i := v])
    ensures CellsValid(t) ==> CellsValid(t[i := v])
  {
    var t' := t[i := v];
    forall c | c in CellsOf(t') ensures c in CellsOf(t) {
      var p :| p in t' && t'[p].formula != null && t'[p].formula == c;
      assert p in t && t[p].formula == c;
    }
    forall c | c in CellsOf(t) ensures c in CellsOf(t') {
      var p :| p in t && t[p].formula != null && t[p].formula == c;
      assert p in t' && t'[p].formula == c;
    }
  }

  /** Giving one vertex a new cell, in place of none or of its old one,
      keeps ownership; the only cell that can appear is the new one. */
  lemma NewCellKeepsOwnership(t: map<Position, Vertex>, i: Position, v: Vertex)
    requires v.formula != null && v.formula !in CellsOf(t)
    ensures CellsOf(t[i := v]) <= CellsOf(t) + {v.formula}
    ensures Owned(t) ==> Owned(t[i := v])
    ensures CellsValid(t) && v.formula.Valid() ==> CellsValid(t[i := v])
  {
    var t' := t[i := v];
    forall c | c in CellsOf(t') ensures c in CellsOf(t) + {v.formula} {
      var p :| p in t' && t'[p].formula != null && t'[p].formula == c;
      if p != i {
        assert p in t && t[p].formula == c;
      }
    }
  }

  /** Erasing a vertex keeps ownership of the cells that remain. */
  lemma EraseKeepsCells(t: map<Position, Vertex>, i: Position)
    ensures CellsOf(t - {i}) <= CellsOf(t)
    ensures Owned(t) ==> Owned(t - {i})
    ensures CellsValid(t) ==> CellsValid(t - {i})
  {
    forall c | c in CellsOf(t - {i}) ensures c in CellsOf(t) {
      var p :| p in t - {i} && (t - {i})[p].formula != null && (t - {i})[p].formula == c;
      assert p in t && t[p].formula == c;
    }
  }
}
