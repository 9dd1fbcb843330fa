/** The forward-reference graph of a table (a formula at p has an edge to each
    position it reads), paths and reachability in it, and the invariants the
    sheet is meant to keep. */
module DependencyGraph {
  import opened Common
  import opened Cells
  import opened SheetState

  /** Forward edges of p: the positions its cell reads. */
  function Refs(t: Table, p: Position): (refs: seq<Position>)
    ensures refs != [] ==> p in t && t[p].cell.Some?
  {
    if p in t && t[p].cell.Some? then ReferencedCells(t[p].cell.value) else []
  }

  ghost predicate IsPath(t: Table, s: seq<Position>) {
    |s| > 0 && forall i :: 0 <= i < |s| - 1 ==> s[i + 1] in Refs(t, s[i])
  }

  /** v can be reached from u by following zero or more forward edges. */
  ghost predicate Reaches(t: Table, u: Position, v: Position) {
    exists s :: IsPath(t, s) && s[0] == u && s[|s| - 1] == v
  }

  /** No position reaches itself by one or more forward edges. */
  ghost predicate Acyclic(t: Table) {
    forall s :: IsPath(t, s) && |s| > 1 ==> s[0] != s[|s| - 1]
  }

  /** Every position some cell reads has an entry. */
  ghost predicate Closed(t: Table) {
    forall p, q :: p in t && q in Refs(t, p) ==> q in t
  }

  /** Every entry holds a cell. */
  ghost predicate NoNullCells(t: Table) {
    forall p :: p in t ==> t[p].cell.Some?
  }

  /** Reverse edges are the exact transpose of forward edges, counted with
      multiplicity: q lists p as often as p's cell reads q. */
  ghost predicate Transposed(t: Table) {
    forall p, q :: q in t ==> multiset(t[q].edges)[p] == multiset(Refs(t, p))[q]
  }

  ghost predicate Invariant(t: Table) {
    NoNullCells(t) && Closed(t) && Transposed(t) && Acyclic(t)
  }

  /** What the cycle check reports for a candidate with forward edges refs at
      pos: with no entry at pos, only a direct self-reference; otherwise
      whether some reference reaches pos. */
  ghost predicate CycleFound(t: Table, pos: Position, refs: seq<Position>) {
    if pos !in t then pos in refs
    else exists r :: r in refs && Reaches(t, r, pos)
  }

  lemma ReachesRefl(t: Table, u: Position)
    ensures Reaches(t, u, u)
  {
    assert IsPath(t, [u]);
  }

  /** One forward edge followed by a path is a path. */
  lemma ReachesStep(t: Table, u: Position, w: Position, v: Position)
    requires w in Refs(t, u) && Reaches(t, w, v)
    ensures Reaches(t, u, v)
  {
    var s :| IsPath(t, s) && s[0] == w && s[|s| - 1] == v;
    var s' := [u] + s;
    assert IsPath(t, s') by {
      forall i | 0 <= i < |s'| - 1 ensures s'[i + 1] in Refs(t, s'[i]) {
        if i > 0 {
          assert s'[i] == s[i - 1] && s'[i + 1] == s[i];
        }
      }
    }
    assert s'[0] == u && s'[|s'| - 1] == v;
  }

  /** A path that leaves u starts with one of u's forward edges. */
  lemma {:induction false} ReachesFirstStep(t: Table, u: Position, v: Position)
    requires Reaches(t, u, v) && u != v
    ensures exists w :: w in Refs(t, u) && Reaches(t, w, v)
  {
    var s :| IsPath(t, s) && s[0] == u && s[|s| - 1] == v;
    assert |s| > 1;
    var s' := s[1..];
    assert IsPath(t, s') by {
      forall i | 0 <= i < |s'| - 1 ensures s'[i + 1] in Refs(t, s'[i]) {
        assert s'[i] == s[i + 1] && s'[i + 1] == s[i + 2];
      }
    }
    assert s[1] in Refs(t, u) && Reaches(t, s[1], v);
  }

  /** Leaving u towards another position goes through one of u's forward
      edges; in particular a position without forward edges reaches only
      itself. */
  lemma ReachesThroughRefs(t: Table, u: Position, v: Position)
    ensures Reaches(t, u, v) && u != v ==> exists w :: w in Refs(t, u) && Reaches(t, w, v)
  {
    if Reaches(t, u, v) && u != v {
      ReachesFirstStep(t, u, v);
    }
  }

  /** Joining a path that ends where the second starts gives a path. */
  lemma PathAppend(t: Table, a: seq<Position>, b: seq<Position>)
    requires IsPath(t, a) && IsPath(t, b) && a[|a| - 1] == b[0]
    ensures IsPath(t, a + b[1..]) && |a + b[1..]| == |a| + |b| - 1
  {
    var c := a + b[1..];
    forall i | 0 <= i < |c| - 1 ensures c[i + 1] in Refs(t, c[i]) {
      if i < |a| - 1 {
        assert c[i] == a[i] && c[i + 1] == a[i + 1];
      } else {
        assert c[i] == b[i - |a| + 1] && c[i + 1] == b[i - |a| + 2];
      }
    }
  }

  lemma ReachesTrans(t: Table, u: Position, w: Position, v: Position)
    requires Reaches(t, u, w) && Reaches(t, w, v)
    ensures Reaches(t, u, v)
  {
    var a :| IsPath(t, a) && a[0] == u && a[|a| - 1] == w;
    var b :| IsPath(t, b) && b[0] == w && b[|b| - 1] == v;
    PathAppend(t, a, b);
    var c := a + b[1..];
    assert c[0] == u;
    assert c[|c| - 1] == v by {
      if |b| == 1 { assert c == a; } else { assert c[|c| - 1] == b[|b| - 1]; }
    }
  }

  /** A successor of u that reaches u back closes a cycle. */
  lemma BackEdgeCycle(t: Table, u: Position, w: Position)
    requires w in Refs(t, u) && Reaches(t, w, u)
    ensures !Acyclic(t)
  {
    var s :| IsPath(t, s) && s[0] == w && s[|s| - 1] == u;
    var s' := [u] + s;
    assert forall i :: 1 <= i < |s'| - 1 ==> s'[i] == s[i - 1] && s'[i + 1] == s[i];
    assert IsPath(t, s') && |s'| > 1 && s'[0] == s'[|s'| - 1];
  }

  /** The last step of a path of two or more positions is a forward edge out
      of an entry with a cell. */
  lemma LastStep(t: Table, s: seq<Position>)
    requires IsPath(t, s)
    ensures |s| > 1 ==> s[|s| - 1] in Refs(t, s[|s| - 2]) && s[|s| - 2] in t
    ensures |s| > 1 ==> s[1] in Refs(t, s[0]) && s[0] in t
  {
  }

  /** A position with no forward edges reaches only itself. */
  lemma NoRefsReachOnlySelf(t: Table, u: Position, v: Position)
    requires Refs(t, u) == [] && Reaches(t, u, v)
    ensures u == v
  {
    var s :| IsPath(t, s) && s[0] == u && s[|s| - 1] == v;
    LastStep(t, s);
  }

  /** A path of t2 that avoids pos except possibly at its end is a path of t,
      when t and t2 have the same forward edges away from pos. */
  lemma LiftPath(t: Table, t2: Table, pos: Position, s: seq<Position>)
    requires IsPath(t2, s)
    requires forall x :: x != pos ==> Refs(t2, x) == Refs(t, x)
    requires forall i :: 0 <= i < |s| - 1 ==> s[i] != pos
    ensures IsPath(t, s)
  {
    forall i | 0 <= i < |s| - 1 ensures s[i + 1] in Refs(t, s[i]) {
      assert s[i + 1] in Refs(t2, s[i]);
    }
  }

  /** A cycle of t2 through pos leaves pos by one of its new edges and comes
      back to pos along edges t already had. */
  lemma {:induction false} CycleThrough(t: Table, t2: Table, pos: Position, c: seq<Position>)
    requires IsPath(t2, c) && |c| > 1 && c[0] == pos && c[|c| - 1] == pos
    requires forall x :: x != pos ==> Refs(t2, x) == Refs(t, x)
    ensures exists r :: r in Refs(t2, pos) && Reaches(t, r, pos)
    decreases |c|
  {
    var d := c[1..];
    assert IsPath(t2, d) by {
      forall i | 0 <= i < |d| - 1 ensures d[i + 1] in Refs(t2, d[i]) {
        assert d[i] == c[i + 1] && d[i + 1] == c[i + 2];
      }
    }
    if m :| 0 <= m < |d| - 1 && d[m] == pos {
      var c' := d[m..];
      assert IsPath(t2, c') by {
        forall i | 0 <= i < |c'| - 1 ensures c'[i + 1] in Refs(t2, c'[i]) {
          assert c'[i] == d[m + i] && c'[i + 1] == d[m + i + 1];
        }
      }
      CycleThrough(t, t2, pos, c');
    } else {
      LiftPath(t, t2, pos, d);
      assert d[0] in Refs(t2, pos) && Reaches(t, d[0], pos);
    }
  }

  /** A cycle of t2 is either a cycle t already had or passes through pos and
      comes back to it along edges t already had. */
  lemma CycleAfterRewire(t: Table, t2: Table, pos: Position, s: seq<Position>)
    requires IsPath(t2, s) && |s| > 1 && s[0] == s[|s| - 1]
    requires forall x :: x != pos ==> Refs(t2, x) == Refs(t, x)
    ensures !Acyclic(t) || exists r :: r in Refs(t2, pos) && Reaches(t, r, pos)
  {
    if k :| 0 <= k < |s| - 1 && s[k] == pos {
      var a := s[k..];
      var b := s[..k + 1];
      assert IsPath(t2, a) by {
        forall i | 0 <= i < |a| - 1 ensures a[i + 1] in Refs(t2, a[i]) {
          assert a[i] == s[k + i] && a[i + 1] == s[k + i + 1];
        }
      }
      PathAppend(t2, a, b);
      var c := a + b[1..];
      assert c[|c| - 1] == pos by {
        if k == 0 { assert c == a; } else { assert c[|c| - 1] == b[k]; }
      }
      CycleThrough(t, t2, pos, c);
    } else {
      LiftPath(t, t2, pos, s);
    }
  }

  /** Rewiring the forward edges of pos keeps the graph acyclic when none of
      the new edges leads back to pos. */
  lemma AcyclicAfterRewire(t: Table, t2: Table, pos: Position)
    requires Acyclic(t)
    requires forall x :: x != pos ==> Refs(t2, x) == Refs(t, x)
    requires forall r :: r in Refs(t2, pos) ==> !Reaches(t, r, pos)
    ensures Acyclic(t2)
  {
    forall s | IsPath(t2, s) && |s| > 1 ensures s[0] != s[|s| - 1] {
      if s[0] == s[|s| - 1] {
        CycleAfterRewire(t, t2, pos, s);
      }
    }
  }

  /** With every read position present, a candidate at an absent pos can reach
      pos only by naming it: the shortcut of the cycle check then agrees with a
      full search. */
  lemma ShortcutSound(t: Table, pos: Position, refs: seq<Position>)
    requires Closed(t) && pos !in t
    ensures (exists r :: r in refs && Reaches(t, r, pos)) <==> pos in refs
  {
    if pos in refs {
      ReachesRefl(t, pos);
    }
    forall r | r in refs && Reaches(t, r, pos) ensures r == pos {
      var s :| IsPath(t, s) && s[0] == r && s[|s| - 1] == pos;
      LastStep(t, s);
    }
  }

  /** Under Closed, the reported outcome of the cycle check is the sound one. */
  lemma CycleFoundSound(t: Table, pos: Position, refs: seq<Position>)
    requires Closed(t)
    ensures CycleFound(t, pos, refs) <==> exists r :: r in refs && Reaches(t, r, pos)
  {
    if pos !in t {
      ShortcutSound(t, pos, refs);
    }
  }
}
