/** The three-colour search of the cycle check, on table values: what the
    colour map means before a call of the search, after it, and between two
    forward edges, and the lemmas that take the search from one step to the
    next. */
module CycleSearch {
  import opened Common
  import opened Cells
  import opened SheetState
  import opened DependencyGraph


  /** No Black position reaches the root of the search. */
  ghost predicate BlackSafe(t: Table, colors: map<Position, Color>, root: Position) {
    forall k :: k in colors && colors[k] == Black ==> !Reaches(t, k, root)
  }

  /** Every Grey position is the root or lies above u on the search path. */
  ghost predicate GreyAbove(t: Table, colors: map<Position, Color>, root: Position, u: Position) {
    forall k :: k in colors && colors[k] == Grey ==> k == root || Reaches(t, k, u)
  }

  /** A Grey successor of u is the root, or else closes a cycle. */
  lemma GreySuccessor(t: Table, root: Position, u: Position, w: Position)
    requires w in Refs(t, u) && (w == root || Reaches(t, w, u))
    ensures Reaches(t, u, root) || !Acyclic(t)
  {
    if w == root {
      ReachesRefl(t, root);
      ReachesStep(t, u, root, root);
    } else {
      BackEdgeCycle(t, u, w);
    }
  }

  /** The later colour map keeps every colour of the earlier one. */
  predicate Extends(colors: map<Position, Color>, colors': map<Position, Color>) {
    colors.Keys <= colors'.Keys && forall k :: k in colors ==> colors'[k] == colors[k]
  }

  /** Going down the edge from u to w keeps every Grey position above the
      search path, when the only new Grey position is u. */
  lemma GreyAboveDescend(t: Table, colors: map<Position, Color>, colors': map<Position, Color>,
                         root: Position, u: Position, w: Position)
    requires GreyAbove(t, colors, root, u) && w in Refs(t, u)
    requires forall k :: k in colors' && colors'[k] == Grey ==> k == u || (k in colors && colors[k] == Grey)
    ensures GreyAbove(t, colors', root, w)
  {
    ReachesRefl(t, w);
    ReachesStep(t, u, w, w);
    forall k | k in colors' && colors'[k] == Grey && k != root ensures Reaches(t, k, w) {
      if k != u {
        ReachesTrans(t, k, u, w);
      }
    }
  }

  /** What a call of the search below u is given: a Grey root, no White
      entries stored, Black entries that do not reach the root, Grey entries
      on the path down to u, and u not yet coloured. */
  ghost predicate MayEnter(t: Table, colors: map<Position, Color>, u: Position, root: Position) {
    && NoWhiteStored(colors) && ColorOf(colors, u) == White
    && root in colors && colors[root] == Grey
    && BlackSafe(t, colors, root) && GreyAbove(t, colors, root, u)
  }

  /** What a call of the search below u leaves behind: old colours kept, u
      coloured, Black still safe, everything newly coloured Black when u is,
      and, under an acyclic graph, u Grey exactly when it reaches the root. */
  ghost predicate SearchedFrom(t: Table, colors: map<Position, Color>, colors': map<Position, Color>,
                               u: Position, root: Position) {
    && Extends(colors, colors') && u in colors' && NoWhiteStored(colors')
    && BlackSafe(t, colors', root)
    && (colors'[u] == Black ==> forall k :: k in colors' && k !in colors ==> colors'[k] == Black)
    && (Acyclic(t) ==> (colors'[u] == Grey <==> Reaches(t, u, root)))
  }

  /** The search below u once its first i forward edges have come back Black. */
  ghost predicate Searching(t: Table, colors: map<Position, Color>, colors': map<Position, Color>,
                            u: Position, root: Position, i: int) {
    && 0 <= i <= |Refs(t, u)|
    && Extends(colors, colors') && u in colors' && colors'[u] == Grey
    && NoWhiteStored(colors') && BlackSafe(t, colors', root)
    && (forall k :: k in colors' && k !in colors && k != u ==> colors'[k] == Black)
    && (forall j :: 0 <= j < i ==> ColorOf(colors', Refs(t, u)[j]) == Black)
  }

  /** A position without an entry has no forward edges and turns Black. */
  lemma SearchNoEntry(t: Table, colors: map<Position, Color>, u: Position, root: Position)
    requires MayEnter(t, colors, u, root) && u !in t
    ensures SearchedFrom(t, colors, colors[u := Grey][u := Black], u, root)
  {
    ReachesThroughRefs(t, u, root);
  }

  lemma SearchStart(t: Table, colors: map<Position, Color>, u: Position, root: Position)
    requires MayEnter(t, colors, u, root)
    ensures Searching(t, colors, colors[u := Grey], u, root, 0)
  {
  }

  /** A White forward edge may be searched, and the search has one
      uncoloured entry fewer to go. */
  lemma SearchDescend(t: Table, colors: map<Position, Color>, colors': map<Position, Color>,
                      u: Position, root: Position, i: int)
    requires MayEnter(t, colors, u, root) && Searching(t, colors, colors', u, root, i)
    requires i < |Refs(t, u)| && ColorOf(colors', Refs(t, u)[i]) == White
    ensures MayEnter(t, colors', Refs(t, u)[i], root)
    ensures t.Keys - colors'.Keys < t.Keys - colors.Keys
  {
    GreyAboveDescend(t, colors, colors', root, u, Refs(t, u)[i]);
    assert u in t.Keys - colors.Keys && u !in t.Keys - colors'.Keys;
  }

  lemma SearchSkipsBlack(t: Table, colors: map<Position, Color>, colors': map<Position, Color>,
                         u: Position, root: Position, i: int)
    requires Searching(t, colors, colors', u, root, i)
    requires i < |Refs(t, u)| && ColorOf(colors', Refs(t, u)[i]) == Black
    ensures Searching(t, colors, colors', u, root, i + 1)
  {
  }

  lemma SearchReturnsBlack(t: Table, colors: map<Position, Color>, colors': map<Position, Color>,
                           colors'': map<Position, Color>, u: Position, root: Position, i: int)
    requires Searching(t, colors, colors', u, root, i) && i < |Refs(t, u)|
    requires SearchedFrom(t, colors', colors'', Refs(t, u)[i], root) && colors''[Refs(t, u)[i]] == Black
    ensures Searching(t, colors, colors'', u, root, i + 1)
  {
  }

  /** A forward edge that comes back Grey stops the search with u Grey. */
  lemma SearchReturnsGrey(t: Table, colors: map<Position, Color>, colors': map<Position, Color>,
                          colors'': map<Position, Color>, u: Position, root: Position, i: int)
    requires Searching(t, colors, colors', u, root, i) && i < |Refs(t, u)|
    requires SearchedFrom(t, colors', colors'', Refs(t, u)[i], root) && colors''[Refs(t, u)[i]] == Grey
    ensures SearchedFrom(t, colors, colors'', u, root)
  {
    if Acyclic(t) {
      ReachesStep(t, u, Refs(t, u)[i], root);
    }
  }

  /** A forward edge that is already Grey stops the search with u Grey. */
  lemma SearchMeetsGrey(t: Table, colors: map<Position, Color>, colors': map<Position, Color>,
                        u: Position, root: Position, i: int)
    requires MayEnter(t, colors, u, root) && Searching(t, colors, colors', u, root, i)
    requires i < |Refs(t, u)| && ColorOf(colors', Refs(t, u)[i]) == Grey
    ensures SearchedFrom(t, colors, colors', u, root)
  {
    var w := Refs(t, u)[i];
    ReachesRefl(t, u);
    assert w == u || (w in colors && colors[w] == Grey);
    GreySuccessor(t, root, u, w);
  }

  /** When every forward edge came back Black, u does not reach the root. */
  lemma SearchDone(t: Table, colors: map<Position, Color>, colors': map<Position, Color>,
                   u: Position, root: Position)
    requires MayEnter(t, colors, u, root) && Searching(t, colors, colors', u, root, |Refs(t, u)|)
    ensures SearchedFrom(t, colors, colors'[u := Black], u, root)
  {
    var refs := Refs(t, u);
    forall w | w in refs ensures !Reaches(t, w, root) {
      var j :| 0 <= j < |refs| && refs[j] == w;
      assert ColorOf(colors', refs[j]) == Black;
    }
    assert u != root;
    ReachesThroughRefs(t, u, root);
    assert !Reaches(t, u, root);
    var done := colors'[u := Black];
    assert BlackSafe(t, done, root);
    assert forall k :: k in done && k !in colors ==> done[k] == Black;
  }

  /** The search from the candidate references refs of pos, once the first i
      of them have come back Black: pos is the only Grey entry. */
  ghost predicate TopSearching(t: Table, colors: map<Position, Color>, pos: Position,
                               refs: seq<Position>, i: int) {
    && 0 <= i <= |refs|
    && pos in colors && colors[pos] == Grey && NoWhiteStored(colors)
    && BlackSafe(t, colors, pos)
    && (forall k :: k in colors && colors[k] == Grey ==> k == pos)
    && (forall j :: 0 <= j < i ==> ColorOf(colors, refs[j]) == Black)
  }

  lemma TopStart(t: Table, pos: Position, refs: seq<Position>)
    ensures TopSearching(t, map[pos := Grey], pos, refs, 0)
  {
  }

  lemma TopDescend(t: Table, colors: map<Position, Color>, pos: Position, refs: seq<Position>, i: int)
    requires TopSearching(t, colors, pos, refs, i) && i < |refs| && ColorOf(colors, refs[i]) == White
    ensures MayEnter(t, colors, refs[i], pos)
  {
  }

  lemma TopSkipsBlack(t: Table, colors: map<Position, Color>, pos: Position, refs: seq<Position>, i: int)
    requires TopSearching(t, colors, pos, refs, i) && i < |refs| && ColorOf(colors, refs[i]) == Black
    ensures TopSearching(t, colors, pos, refs, i + 1)
  {
  }

  lemma TopReturnsBlack(t: Table, colors: map<Position, Color>, colors': map<Position, Color>,
                        pos: Position, refs: seq<Position>, i: int)
    requires TopSearching(t, colors, pos, refs, i) && i < |refs|
    requires SearchedFrom(t, colors, colors', refs[i], pos) && colors'[refs[i]] == Black
    ensures TopSearching(t, colors', pos, refs, i + 1)
  {
  }

  /** A reference that is already Grey is pos itself: a self-reference. */
  lemma TopMeetsGrey(t: Table, colors: map<Position, Color>, pos: Position, refs: seq<Position>, i: int)
    requires pos in t && TopSearching(t, colors, pos, refs, i)
    requires i < |refs| && ColorOf(colors, refs[i]) == Grey
    ensures CycleFound(t, pos, refs)
  {
    ReachesRefl(t, pos);
    assert refs[i] == pos;
  }

  /** A reference that comes back Grey reaches pos under an acyclic graph. */
  lemma TopReturnsGrey(t: Table, colors: map<Position, Color>, colors': map<Position, Color>,
                       pos: Position, refs: seq<Position>, i: int)
    requires pos in t && TopSearching(t, colors, pos, refs, i) && i < |refs|
    requires SearchedFrom(t, colors, colors', refs[i], pos) && colors'[refs[i]] == Grey
    ensures Acyclic(t) ==> CycleFound(t, pos, refs)
  {
    assert Acyclic(t) ==> refs[i] in refs && Reaches(t, refs[i], pos);
  }

  /** When every reference came back Black, none of them reaches pos. */
  lemma TopDone(t: Table, colors: map<Position, Color>, pos: Position, refs: seq<Position>)
    requires TopSearching(t, colors, pos, refs, |refs|)
    ensures forall r :: r in refs ==> !Reaches(t, r, pos)
  {
    forall r | r in refs ensures !Reaches(t, r, pos) {
      var j :| 0 <= j < |refs| && refs[j] == r;
      assert ColorOf(colors, refs[j]) == Black;
    }
  }
}
