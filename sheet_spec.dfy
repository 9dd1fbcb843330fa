/** What each mutation of the sheet does to the value of its table. The sheet's
    methods are proved to change their table exactly as these functions say. */
module SheetSpec {
  import opened Common
  import opened Cells
  import opened SheetState
  import opened DependencyGraph

  /** An entry as a table lookup that default-inserts sees it: absent entries
      read as no reverse edges and no cell. */
  function Lookup(t: Table, q: Position): Entry {
    if q in t then t[q] else Entry([], None)
  }

  function Monus(a: nat, b: nat): nat {
    if a >= b then a - b else 0
  }

  function Repeat(x: Position, n: nat): (r: seq<Position>)
    ensures |r| == n && forall i :: 0 <= i < n ==> r[i] == x
  {
    seq(n, _ => x)
  }

  lemma MultisetRepeat(s: seq<Position>, x: Position, n: nat, p: Position)
    ensures multiset(s + Repeat(x, n))[p] == multiset(s)[p] + (if p == x then n else 0)
  {
    if n > 0 {
      var r := Repeat(x, n - 1);
      assert Repeat(x, n) == r + [x];
      assert s + Repeat(x, n) == (s + r) + [x];
      MultisetRepeat(s, x, n - 1, p);
    } else {
      assert s + Repeat(x, n) == s;
    }
  }

  // ---------------------------------------------------------------------------
  // Cache invalidation

  /** s follows reverse edges through entries of t. */
  ghost predicate IsEdgePath(t: Table, s: seq<Position>) {
    && |s| > 0
    && (forall i :: 0 <= i < |s| ==> s[i] in t)
    && (forall i :: 0 <= i < |s| - 1 ==> s[i + 1] in t[s[i]].edges)
  }

  /** q is invalidated by a change at pos: it is reached from pos along
      reverse edges, every position on the way having an entry. */
  ghost predicate Invalidated(t: Table, pos: Position, q: Position) {
    exists s :: IsEdgePath(t, s) && s[0] == pos && s[|s| - 1] == q
  }

  ghost function InvalidatedSet(t: Table, pos: Position): set<Position> {
    set q | q in t && Invalidated(t, pos, q)
  }

  /** An entry with its cell's cache dropped. */
  function ResetEntry(e: Entry): (r: Entry)
    ensures r.edges == e.edges && r.cell.Some? == e.cell.Some?
    ensures e.cell.Some? ==> r.cell.value == Reset(e.cell.value)
  {
    Entry(e.edges, if e.cell.None? then None else Some(Reset(e.cell.value)))
  }

  ghost function ResetAt(t: Table, ps: set<Position>): (r: Table)
    ensures r.Keys == t.Keys
    ensures forall p :: p in t ==> r[p] == (if p in ps then ResetEntry(t[p]) else t[p])
  {
    map p | p in t :: if p in ps then ResetEntry(t[p]) else t[p]
  }

  /** Resetting one more position. */
  lemma ResetAtInsert(t: Table, ps: set<Position>, p: Position)
    requires p in t && p !in ps
    ensures ResetAt(t, ps)[p := ResetEntry(t[p])] == ResetAt(t, ps + {p})
  {
  }

  /** The table after ResetCache(pos): the cache of every invalidated position
      is dropped and nothing else changes; an absent pos changes nothing. */
  ghost function ResetReachable(t: Table, pos: Position): (r: Table)
    ensures r.Keys == t.Keys
    ensures forall p :: p in t ==> r[p].edges == t[p].edges && (r[p].cell.Some? <==> t[p].cell.Some?)
    ensures forall p :: p in t && t[p].cell.Some? ==>
      TextOf(r[p].cell.value) == TextOf(t[p].cell.value) && (r[p].cell.value.Empty? <==> t[p].cell.value.Empty?)
    ensures forall p :: Refs(r, p) == Refs(t, p)
    ensures forall p :: p in t ==> r[p] == (if Invalidated(t, pos, p) then ResetEntry(t[p]) else t[p])
    ensures pos in t ==> r[pos] == ResetEntry(t[pos])
    ensures pos !in t ==> r == t
  {
    assert pos in t ==> IsEdgePath(t, [pos]);
    ResetAt(t, InvalidatedSet(t, pos))
  }

  /** One more reverse edge out of an invalidated entry. */
  lemma InvalidatedStep(t: Table, pos: Position, p: Position, q: Position)
    requires Invalidated(t, pos, p) && p in t && q in t[p].edges && q in t
    ensures Invalidated(t, pos, q)
  {
    var s :| IsEdgePath(t, s) && s[0] == pos && s[|s| - 1] == p;
    var s' := s + [q];
    assert forall i :: 0 <= i < |s| ==> s'[i] == s[i];
    assert IsEdgePath(t, s');
  }

  /** A set of entries that holds pos and is closed under reverse edges holds
      every invalidated position. */
  lemma {:induction false} InvalidatedWithin(t: Table, pos: Position, ps: set<Position>, s: seq<Position>)
    requires pos in ps
    requires forall v, q :: v in ps && v in t && q in t[v].edges && q in t ==> q in ps
    requires IsEdgePath(t, s) && s[0] == pos
    ensures s[|s| - 1] in ps
    decreases |s|
  {
    if |s| > 1 {
      var s' := s[..|s| - 1];
      assert IsEdgePath(t, s') by {
        assert forall i :: 0 <= i < |s'| ==> s'[i] == s[i];
      }
      InvalidatedWithin(t, pos, ps, s');
      assert s[|s| - 1] in t[s[|s| - 2]].edges;
    }
  }

  /** The state of a walk collecting the positions invalidated by pos: every
      visited position is invalidated, and the reverse edges of every visited
      position that is no longer pending lead to visited positions. */
  ghost predicate WalkInvariant(t: Table, pos: Position, visited: set<Position>, pending: set<Position>) {
    && pending <= visited <= t.Keys && pos in visited
    && (forall v :: v in visited ==> Invalidated(t, pos, v))
    && (forall v, q :: v in visited - pending && q in t[v].edges && q in t ==> q in visited)
  }

  /** Taking p off the pending set and adding the newly discovered positions
      keeps the walk's invariant once p's reverse edges are all visited. */
  lemma WalkAdvance(t: Table, pos: Position, visited: set<Position>, pending: set<Position>,
                    p: Position, visited': set<Position>, pending': set<Position>)
    requires WalkInvariant(t, pos, visited, pending) && p in pending
    requires visited <= visited' <= t.Keys && pending' == (pending - {p}) + (visited' - visited)
    requires forall v :: v in visited' ==> Invalidated(t, pos, v)
    requires forall q :: q in t[p].edges && q in t ==> q in visited'
    ensures WalkInvariant(t, pos, visited', pending')
    ensures t.Keys - visited' < t.Keys - visited || (visited' == visited && |pending'| < |pending|)
  {
    var done := visited - pending;
    assert visited' - pending' == done + {p};
    forall v, q | v in done + {p} && q in t[v].edges && q in t ensures q in visited' {
      if v != p {
        assert v in done;
      }
    }
    WalkShrinks(t.Keys, visited, pending, p, visited', pending');
  }

  /** Each step of the walk visits a new position or shrinks the pending set. */
  lemma WalkShrinks(keys: set<Position>, visited: set<Position>, pending: set<Position>,
                    p: Position, visited': set<Position>, pending': set<Position>)
    requires pending <= visited && p in pending
    requires visited <= visited' <= keys && pending' == (pending - {p}) + (visited' - visited)
    ensures keys - visited' < keys - visited || (visited' == visited && |pending'| < |pending|)
  {
    if visited' != visited {
      var q :| q in visited' && q !in visited;
      assert q in keys - visited && q !in keys - visited';
    } else {
      assert pending' == pending - {p};
    }
  }

  /** Resetting a closed set of invalidated positions that holds pos is
      ResetReachable. */
  lemma ResetClosedSet(t: Table, pos: Position, ps: set<Position>)
    requires pos in ps && ps <= t.Keys
    requires forall v :: v in ps ==> Invalidated(t, pos, v)
    requires forall v, q :: v in ps && q in t[v].edges && q in t ==> q in ps
    ensures ResetAt(t, ps) == ResetReachable(t, pos)
  {
    forall q | q in t && Invalidated(t, pos, q) ensures q in ps {
      var s :| IsEdgePath(t, s) && s[0] == pos && s[|s| - 1] == q;
      InvalidatedWithin(t, pos, ps, s);
    }
  }

  // ---------------------------------------------------------------------------
  // Rewiring of reverse edges

  /** s without its first occurrence of x. */
  function RemoveFirst(s: seq<Position>, x: Position): (r: seq<Position>)
    ensures multiset(r) == multiset(s) - multiset{x}
    ensures x !in s ==> r == s
  {
    if s == [] then []
    else
      assert s == [s[0]] + s[1..];
      if s[0] == x then s[1..] else [s[0]] + RemoveFirst(s[1..], x)
  }

  /** The index of the first occurrence of x in s. */
  function FirstIndex(s: seq<Position>, x: Position): (i: nat)
    requires x in s
    ensures i < |s| && s[i] == x && x !in s[..i]
  {
    if s[0] == x then 0
    else
      var i := FirstIndex(s[1..], x);
      assert s[..i + 1] == [s[0]] + s[1..][..i];
      i + 1
  }

  /** Splicing out index i of the tail of s is splicing out index i + 1 of s. */
  lemma ConsSplice(s: seq<Position>, i: nat)
    requires i + 1 < |s|
    ensures [s[0]] + (s[1..][..i] + s[1..][i + 1..]) == s[..i + 1] + s[i + 2..]
  {
    assert s[..i + 1] == [s[0]] + s[1..][..i];
    assert s[i + 2..] == s[1..][i + 1..];
  }

  /** RemoveFirst splices out exactly the first occurrence. */
  lemma {:induction false} RemoveFirstSplices(s: seq<Position>, x: Position)
    requires x in s
    ensures RemoveFirst(s, x) == s[..FirstIndex(s, x)] + s[FirstIndex(s, x) + 1..]
  {
    if s[0] == x {
      assert s[..0] == [];
    } else {
      var tail := s[1..];
      var i := FirstIndex(tail, x);
      assert FirstIndex(s, x) == i + 1;
      assert RemoveFirst(s, x) == [s[0]] + RemoveFirst(tail, x);
      RemoveFirstSplices(tail, x);
      ConsSplice(s, i);
    }
  }

  /** For each old dependency q (with repetition), one occurrence of pos is
      removed from q's reverse edges; a dependency without an entry gets an
      empty one. */
  function DropDependent(t: Table, pos: Position, refs: seq<Position>): Table
    decreases |refs|
  {
    if refs == [] then t
    else
      var e := Lookup(t, refs[0]);
      DropDependent(t[refs[0] := Entry(RemoveFirst(e.edges, pos), e.cell)], pos, refs[1..])
  }

  /** For each new dependency q (with repetition), pos is appended to q's
      reverse edges, and q gets an Empty cell if it had none. */
  function AddDependent(t: Table, pos: Position, refs: seq<Position>): Table
    decreases |refs|
  {
    if refs == [] then t
    else
      var e := Lookup(t, refs[0]);
      AddDependent(t[refs[0] := Entry(e.edges + [pos], if e.cell.None? then Some(Empty) else e.cell)], pos, refs[1..])
  }

  /** One step of each rewiring, at index k of refs. */
  lemma DropDependentStep(t: Table, pos: Position, refs: seq<Position>, k: int)
    requires 0 <= k < |refs|
    ensures var e := Lookup(t, refs[k]);
      DropDependent(t, pos, refs[k..]) == DropDependent(t[refs[k] := Entry(RemoveFirst(e.edges, pos), e.cell)], pos, refs[k + 1..])
  {
    assert refs[k..][0] == refs[k] && refs[k..][1..] == refs[k + 1..];
  }

  lemma AddDependentStep(t: Table, pos: Position, refs: seq<Position>, k: int)
    requires 0 <= k < |refs|
    ensures var e := Lookup(t, refs[k]);
      AddDependent(t, pos, refs[k..]) ==
        AddDependent(t[refs[k] := Entry(e.edges + [pos], if e.cell.None? then Some(Empty) else e.cell)], pos, refs[k + 1..])
  {
    assert refs[k..][0] == refs[k] && refs[k..][1..] == refs[k + 1..];
  }

  /** The vertex-level step of DropDependent at index k of refs. */
  lemma DropVertexStep(r: map<Position, Vertex>, pos: Position, refs: seq<Position>, k: int)
    requires 0 <= k < |refs|
    ensures var i := refs[k];
      var v := if i in r then r[i] else Vertex([], null);
      DropDependent(Snapshot(r), pos, refs[k..]) ==
        DropDependent(Snapshot(r[i := Vertex(RemoveFirst(v.edges, pos), v.formula)]), pos, refs[k + 1..])
  {
    var i := refs[k];
    var v := if i in r then r[i] else Vertex([], null);
    var v' := Vertex(RemoveFirst(v.edges, pos), v.formula);
    DropDependentStep(Snapshot(r), pos, refs, k);
    SnapshotUpdate(r, i, v');
  }

  /** The vertex-level step of AddDependent at index k of refs, cell being
      the vertex's own cell or, when it has none, a new Empty one. */
  lemma AddVertexStep(r: map<Position, Vertex>, pos: Position, refs: seq<Position>, k: int, cell: Cell)
    requires 0 <= k < |refs|
    requires var i := refs[k];
      if i in r && r[i].formula != null then cell == r[i].formula else cell.impl == Empty
    ensures var i := refs[k];
      var v := if i in r then r[i] else Vertex([], null);
      AddDependent(Snapshot(r), pos, refs[k..]) ==
        AddDependent(Snapshot(r[i := Vertex(v.edges + [pos], cell)]), pos, refs[k + 1..])
  {
    var i := refs[k];
    var v := if i in r then r[i] else Vertex([], null);
    AddDependentStep(Snapshot(r), pos, refs, k);
    SnapshotUpdate(r, i, Vertex(v.edges + [pos], cell));
  }

  lemma CountSplit(refs: seq<Position>)
    requires refs != []
    ensures multiset(refs) == multiset{refs[0]} + multiset(refs[1..])
    ensures (set j | j in refs) == {refs[0]} + (set j | j in refs[1..])
  {
    assert refs == [refs[0]] + refs[1..];
  }

  lemma RepeatSucc(x: Position, n: nat)
    ensures Repeat(x, n + 1) == [x] + Repeat(x, n)
    ensures multiset(Repeat(x, n + 1)) == multiset{x} + multiset(Repeat(x, n))
  {
    assert Repeat(x, n + 1) == [x] + Repeat(x, n);
  }

  lemma {:induction false} DropDependentKeys(t: Table, pos: Position, refs: seq<Position>)
    ensures DropDependent(t, pos, refs).Keys == t.Keys + (set i | i in refs)
    decreases |refs|
  {
    if refs != [] {
      var e := Lookup(t, refs[0]);
      DropDependentKeys(t[refs[0] := Entry(RemoveFirst(e.edges, pos), e.cell)], pos, refs[1..]);
      CountSplit(refs);
    }
  }

  /** At every position, the cell is kept. */
  lemma {:induction false} DropDependentCell(t: Table, pos: Position, refs: seq<Position>, q: Position)
    ensures q in DropDependent(t, pos, refs) ==> DropDependent(t, pos, refs)[q].cell == Lookup(t, q).cell
    decreases |refs|
  {
    if refs != [] {
      var e := Lookup(t, refs[0]);
      var edges := RemoveFirst(e.edges, pos);
      DropDependentCell(t[refs[0] := Entry(edges, e.cell)], pos, refs[1..], q);
    }
  }

  /** At q, as many occurrences of pos are removed from the reverse edges as
      q occurs in refs, as far as there are any; other counts are kept. */
  ghost predicate DropCountHolds(t: Table, pos: Position, refs: seq<Position>, q: Position, p: Position) {
    q in DropDependent(t, pos, refs) ==>
      multiset(DropDependent(t, pos, refs)[q].edges)[p] ==
        if p == pos then Monus(multiset(Lookup(t, q).edges)[p], multiset(refs)[q])
        else multiset(Lookup(t, q).edges)[p]
  }
  lemma DropCountAtHead(t: Table, pos: Position, refs: seq<Position>, q: Position, p: Position)
    requires refs != [] && q == refs[0]
    requires var e := Lookup(t, refs[0]);
      DropCountHolds(t[refs[0] := Entry(RemoveFirst(e.edges, pos), e.cell)], pos, refs[1..], q, p)
    ensures DropCountHolds(t, pos, refs, q, p)
  {
    var e := Lookup(t, q);
    var edges := RemoveFirst(e.edges, pos);
    CountSplit(refs);
    assert multiset(edges)[p] == if p == pos then Monus(multiset(e.edges)[p], 1) else multiset(e.edges)[p];
  }

  lemma DropCountElsewhere(t: Table, pos: Position, refs: seq<Position>, q: Position, p: Position)
    requires refs != [] && q != refs[0]
    requires var e := Lookup(t, refs[0]);
      DropCountHolds(t[refs[0] := Entry(RemoveFirst(e.edges, pos), e.cell)], pos, refs[1..], q, p)
    ensures DropCountHolds(t, pos, refs, q, p)
  {
    var e := Lookup(t, refs[0]);
    var t1 := t[refs[0] := Entry(RemoveFirst(e.edges, pos), e.cell)];
    CountSplit(refs);
    assert Lookup(t1, q) == Lookup(t, q);
  }

  lemma {:induction false} DropDependentCount(t: Table, pos: Position, refs: seq<Position>, q: Position, p: Position)
    ensures DropCountHolds(t, pos, refs, q, p)
    decreases |refs|
  {
    if refs != [] {
      var e := Lookup(t, refs[0]);
      DropDependentCount(t[refs[0] := Entry(RemoveFirst(e.edges, pos), e.cell)], pos, refs[1..], q, p);
      if q == refs[0] {
        DropCountAtHead(t, pos, refs, q, p);
      } else {
        DropCountElsewhere(t, pos, refs, q, p);
      }
    }
  }

  lemma {:induction false} AddDependentKeys(t: Table, pos: Position, refs: seq<Position>)
    ensures AddDependent(t, pos, refs).Keys == t.Keys + (set i | i in refs)
    decreases |refs|
  {
    if refs != [] {
      var e := Lookup(t, refs[0]);
      AddDependentKeys(t[refs[0] := Entry(e.edges + [pos], if e.cell.None? then Some(Empty) else e.cell)], pos, refs[1..]);
      CountSplit(refs);
    }
  }

  /** At every position, pos is appended to the reverse edges once per
      occurrence of the position in refs; a referenced position without a
      cell gets an Empty one, and an unreferenced one is untouched. */
  lemma AddDependentAt(t: Table, pos: Position, refs: seq<Position>, q: Position)
    ensures var r := AddDependent(t, pos, refs);
      && (q in r ==> r[q].edges == Lookup(t, q).edges + Repeat(pos, multiset(refs)[q]))
      && (q !in refs ==> Lookup(r, q) == Lookup(t, q))
      && (q in refs ==> q in r && r[q].cell == if Lookup(t, q).cell.None? then Some(Empty) else Lookup(t, q).cell)
  {
    AddDependentEdges(t, pos, refs, q);
    AddDependentCell(t, pos, refs, q);
  }

  /** The reverse edges part of AddDependentAt. */
  lemma {:induction false} AddDependentEdges(t: Table, pos: Position, refs: seq<Position>, q: Position)
    ensures var r := AddDependent(t, pos, refs);
      q in r ==> r[q].edges == Lookup(t, q).edges + Repeat(pos, multiset(refs)[q])
    decreases |refs|
  {
    if refs == [] {
      assert Lookup(t, q).edges + Repeat(pos, 0) == Lookup(t, q).edges;
    } else {
      var i := refs[0];
      var e := Lookup(t, i);
      var t1 := t[i := Entry(e.edges + [pos], if e.cell.None? then Some(Empty) else e.cell)];
      AddDependentEdges(t1, pos, refs[1..], q);
      CountSplit(refs);
      if q == i {
        var n := multiset(refs[1..])[q];
        RepeatSucc(pos, n);
        assert Lookup(t, q).edges + Repeat(pos, n + 1) == (Lookup(t, q).edges + [pos]) + Repeat(pos, n);
      }
    }
  }

  /** The cell part of AddDependentAt, and the untouched positions. */
  lemma {:induction false} AddDependentCell(t: Table, pos: Position, refs: seq<Position>, q: Position)
    ensures var r := AddDependent(t, pos, refs);
      && (q !in refs ==> Lookup(r, q) == Lookup(t, q))
      && (q in refs ==> q in r && r[q].cell == if Lookup(t, q).cell.None? then Some(Empty) else Lookup(t, q).cell)
    decreases |refs|
  {
    if refs != [] {
      var i := refs[0];
      var e := Lookup(t, i);
      var t1 := t[i := Entry(e.edges + [pos], if e.cell.None? then Some(Empty) else e.cell)];
      AddDependentCell(t1, pos, refs[1..], q);
      AddDependentKeys(t1, pos, refs[1..]);
      CountSplit(refs);
    }
  }

  lemma EdgeUpdateKeepsRefs(t: Table, i: Position, edges: seq<Position>, x: Position)
    ensures Refs(t[i := Entry(edges, Lookup(t, i).cell)], x) == Refs(t, x)
  {
  }

  /** Rewiring reverse edges does not change any forward edges. */
  lemma {:induction false} DropKeepsRefs(t: Table, pos: Position, refs: seq<Position>, x: Position)
    ensures Refs(DropDependent(t, pos, refs), x) == Refs(t, x)
    decreases |refs|
  {
    if refs != [] {
      var e := Lookup(t, refs[0]);
      var edges := RemoveFirst(e.edges, pos);
      DropKeepsRefs(t[refs[0] := Entry(edges, e.cell)], pos, refs[1..], x);
      EdgeUpdateKeepsRefs(t, refs[0], edges, x);
    }
  }

  lemma {:induction false} AddKeepsRefs(t: Table, pos: Position, refs: seq<Position>, x: Position)
    ensures Refs(AddDependent(t, pos, refs), x) == Refs(t, x)
    decreases |refs|
  {
    if refs != [] {
      var e := Lookup(t, refs[0]);
      AddKeepsRefs(t[refs[0] := Entry(e.edges + [pos], if e.cell.None? then Some(Empty) else e.cell)], pos, refs[1..], x);
    }
  }

  // ---------------------------------------------------------------------------
  // The successful SetCell and the ClearCell of a present cell

  /** The table after SetCell(pos, text) has passed its checks, c being the
      classified text. A position without a cell just receives c. Otherwise the
      caches downstream of pos are dropped, pos is taken out of the reverse
      edges of each old dependency, and c replaces the old cell. Finally pos is
      added to the reverse edges of each new dependency. */
  ghost function Committed(t: Table, pos: Position, c: Content): Table {
    if pos !in t || t[pos].cell.None? then
      AddDependent(t[pos := Entry(Lookup(t, pos).edges, Some(c))], pos, ReferencedCells(c))
    else
      var t1 := ResetReachable(t, pos);
      var t2 := DropDependent(t1, pos, Refs(t1, pos));
      AddDependent(t2[pos := Entry(Lookup(t2, pos).edges, Some(c))], pos, ReferencedCells(c))
  }

  /** The rewiring part of a commit, on a table whose caches are already
      dropped: when pos holds a cell, pos leaves the reverse edges of the
      positions it reads; c takes the place of the cell; pos joins the reverse
      edges of the positions c reads. */
  ghost function Rewired(t: Table, pos: Position, c: Content): Table {
    var t2 := if pos in t && t[pos].cell.Some? then DropDependent(t, pos, Refs(t, pos)) else t;
    AddDependent(t2[pos := Entry(Lookup(t2, pos).edges, Some(c))], pos, ReferencedCells(c))
  }

  /** A commit is the cache reset of a present cell followed by the rewiring. */
  lemma CommittedIsRewired(t: Table, pos: Position, c: Content)
    ensures Committed(t, pos, c) ==
      Rewired(if pos in t && t[pos].cell.Some? then ResetReachable(t, pos) else t, pos, c)
  {
  }

  /** The table after ClearCell(pos) for a valid pos: when pos holds a cell,
      the caches downstream of it are dropped and its entry, reverse edges
      included, is erased. */
  ghost function Cleared(t: Table, pos: Position): Table {
    if pos in t && t[pos].cell.Some? then ResetReachable(t, pos) - {pos} else t
  }

  /** Only the forward edges of pos change in a commit, to those of c. */
  lemma CommittedRefs(t: Table, pos: Position, c: Content, x: Position)
    ensures Refs(Committed(t, pos, c), x) == if x == pos then ReferencedCells(c) else Refs(t, x)
  {
    var refs := ReferencedCells(c);
    if pos !in t || t[pos].cell.None? {
      var t1 := t[pos := Entry(Lookup(t, pos).edges, Some(c))];
      AddKeepsRefs(t1, pos, refs, x);
    } else {
      var t1 := ResetReachable(t, pos);
      var t2 := DropDependent(t1, pos, Refs(t1, pos));
      DropKeepsRefs(t1, pos, Refs(t1, pos), x);
      var t3 := t2[pos := Entry(Lookup(t2, pos).edges, Some(c))];
      AddKeepsRefs(t3, pos, refs, x);
    }
  }

  /** The committed position holds the new cell. */
  lemma CommittedHolds(t: Table, pos: Position, c: Content)
    ensures pos in Committed(t, pos, c) && Committed(t, pos, c)[pos].cell == Some(c)
  {
    var refs := ReferencedCells(c);
    if pos !in t || t[pos].cell.None? {
      var t1 := t[pos := Entry(Lookup(t, pos).edges, Some(c))];
      AddDependentKeys(t1, pos, refs);
      AddDependentAt(t1, pos, refs, pos);
    } else {
      var t1 := ResetReachable(t, pos);
      var t2 := DropDependent(t1, pos, Refs(t1, pos));
      var t3 := t2[pos := Entry(Lookup(t2, pos).edges, Some(c))];
      AddDependentKeys(t3, pos, refs);
      AddDependentAt(t3, pos, refs, pos);
    }
  }

  /** After a commit, every position the new cell reads has an entry with a
      cell (an Empty placeholder if it had none), and its reverse edges end
      with pos once per occurrence of the position among the references. */
  lemma CommittedDependencies(t: Table, pos: Position, c: Content, q: Position)
    requires q in ReferencedCells(c)
    ensures var r := Committed(t, pos, c);
      var n := multiset(ReferencedCells(c))[q];
      && q in r && r[q].cell.Some?
      && n > 0 && |r[q].edges| >= n && r[q].edges[|r[q].edges| - n..] == Repeat(pos, n)
  {
    var refs := ReferencedCells(c);
    var t3: Table;
    if pos !in t || t[pos].cell.None? {
      t3 := t[pos := Entry(Lookup(t, pos).edges, Some(c))];
    } else {
      var t1 := ResetReachable(t, pos);
      var t2 := DropDependent(t1, pos, Refs(t1, pos));
      t3 := t2[pos := Entry(Lookup(t2, pos).edges, Some(c))];
    }
    assert Committed(t, pos, c) == AddDependent(t3, pos, refs);
    AddDependentAt(t3, pos, refs, q);
    var e := Lookup(t3, q).edges;
    var n := multiset(refs)[q];
    assert (e + Repeat(pos, n))[|e + Repeat(pos, n)| - n..] == Repeat(pos, n);
  }

  // ---------------------------------------------------------------------------
  // Printable size

  /** Every position holding a text or a formula lies inside size. */
  ghost predicate Covered(t: Table, size: Size) {
    forall p :: p in t && t[p].cell.Some? && !t[p].cell.value.Empty? ==> p.row < size.rows && p.col < size.cols
  }

  /** size is the smallest rectangle from (0, 0) holding every position of keys. */
  ghost predicate IsBoundingBox(keys: set<Position>, size: Size) {
    && size.rows >= 0 && size.cols >= 0
    && (forall p :: p in keys ==> p.row < size.rows && p.col < size.cols)
    && (size.rows == 0 || exists p :: p in keys && p.row + 1 == size.rows)
    && (size.cols == 0 || exists p :: p in keys && p.col + 1 == size.cols)
  }

  /** The bounding box of a set of positions is determined by the set. */
  lemma BoundingBoxUnique(keys: set<Position>, a: Size, b: Size)
    requires IsBoundingBox(keys, a) && IsBoundingBox(keys, b)
    ensures a == b
  {
  }

  /** A grown size still covers. */
  lemma CoveredGrows(t: Table, a: Size, b: Size)
    requires Covered(t, a) && a.rows <= b.rows && a.cols <= b.cols
    ensures Covered(t, b)
  {
  }

  /** The bounding box of all keys covers every entry. */
  lemma BoundingBoxCovers(t: Table, size: Size)
    requires IsBoundingBox(t.Keys, size)
    ensures Covered(t, size)
  {
  }

  /** Apart from pos, a commit shows a text or formula only where the table
      did: placeholders are Empty and caches are dropped, not changed. */
  lemma CommittedNonEmpty(t: Table, pos: Position, c: Content, p: Position)
    requires p != pos
    ensures var r := Committed(t, pos, c);
      p in r && r[p].cell.Some? && !r[p].cell.value.Empty? ==>
        p in t && t[p].cell.Some? && !t[p].cell.value.Empty?
  {
    var refs := ReferencedCells(c);
    if pos !in t || t[pos].cell.None? {
      var t1 := t[pos := Entry(Lookup(t, pos).edges, Some(c))];
      AddDependentAt(t1, pos, refs, p);
    } else {
      var t1 := ResetReachable(t, pos);
      var t2 := DropDependent(t1, pos, Refs(t1, pos));
      DropDependentCell(t1, pos, Refs(t1, pos), p);
      var t3 := t2[pos := Entry(Lookup(t2, pos).edges, Some(c))];
      AddDependentAt(t3, pos, refs, p);
    }
  }

  /** A commit at a position inside the size keeps the size covering. */
  lemma CommittedCovered(t: Table, pos: Position, c: Content, size: Size)
    requires Covered(t, size) && pos.row < size.rows && pos.col < size.cols
    ensures Covered(Committed(t, pos, c), size)
  {
    var r := Committed(t, pos, c);
    forall p | p in r && r[p].cell.Some? && !r[p].cell.value.Empty?
      ensures p.row < size.rows && p.col < size.cols
    {
      if p != pos {
        CommittedNonEmpty(t, pos, c, p);
      }
    }
  }

  /** Clearing a cell keeps the size covering. */
  lemma ClearedCovered(t: Table, pos: Position, size: Size)
    requires Covered(t, size)
    ensures Covered(Cleared(t, pos), size)
  {
  }
}
