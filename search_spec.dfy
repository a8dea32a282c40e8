/** What the backtracking search computes, stated on grid values.

    The solver's legality test, its count of options per cell, its minimum-remaining-values
    choice of the next cell, and the sequence of full grids its depth-first search reaches,
    with the proofs that this sequence lists every completion of the puzzle exactly once. */
module SearchSpec {
  import opened Grid

  /** A digit may go into a cell when neither its row, nor its column, nor its box holds it already. */
  predicate CanPlace(g: Grid, p: Pos, d: char) {
    d !in UnitDigits(g, Row(p.row)) && d !in UnitDigits(g, Column(p.col)) && d !in UnitDigits(g, Box(Corner(p)))
  }

  /** The rune after '9', where the source's digit loops stop. */
  const PastNine: char := ':'

  function Pred(ch: char): char
    requires '1' < ch <= PastNine
  {
    (ch as int - 1) as char
  }

  /** How many of the digits '1' up to (not including) upto may go into p. */
  function LegalBelow(g: Grid, p: Pos, upto: char): (n: nat)
    requires '1' <= upto <= PastNine
    ensures n <= upto as int - '1' as int
    decreases upto as int
  {
    if upto == '1' then 0
    else LegalBelow(g, p, Pred(upto)) + (if CanPlace(g, p, Pred(upto)) then 1 else 0)
  }

  /** The number of options of a cell: how many of the nine digits may go into it. */
  function Options(g: Grid, p: Pos): (n: nat)
    ensures n <= 9
  {
    LegalBelow(g, p, PastNine)
  }

  lemma {:induction false} LegalBelowZero(g: Grid, p: Pos, upto: char)
    requires '1' <= upto <= PastNine
    ensures LegalBelow(g, p, upto) == 0 <==> forall d :: '1' <= d < upto ==> !CanPlace(g, p, d)
    decreases upto as int
  {
    if upto != '1' {
      LegalBelowZero(g, p, Pred(upto));
    }
  }

  /** A cell has no option exactly when none of the nine digits may go into it. */
  lemma OptionsZero(g: Grid, p: Pos)
    ensures Options(g, p) == 0 <==> forall d :: IsDigit(d) ==> !CanPlace(g, p, d)
  {
    LegalBelowZero(g, p, PastNine);
  }

  /** The state of the minimum-remaining-values scan: the best blank so far and its option count. */
  datatype Choice = Choice(best: Option<Pos>, minOptions: int)

  /** The scan after the first k cells in A1..I9 order: it starts from no cell and 10 options, and a blank
      replaces the best cell only when it has strictly fewer options. */
  function MrvAfter(g: Grid, k: int): Choice
    requires WellFormed(g) && 0 <= k <= 81
  {
    if k == 0 then Choice(None, 10)
    else
      var c := MrvAfter(g, k - 1);
      var p := CellAt(k - 1);
      if g[p] == Blank && Options(g, p) < c.minOptions then Choice(Some(p), Options(g, p)) else c
  }

  /** One step of the scan, at the cell p. */
  lemma MrvStep(g: Grid, p: Pos)
    requires WellFormed(g) && OnBoard(p)
    ensures Index(p) < 81
    ensures var c := MrvAfter(g, Index(p));
      MrvAfter(g, Index(p) + 1) == if g[p] == Blank && Options(g, p) < c.minOptions then Choice(Some(p), Options(g, p)) else c
  {
    CellAtIndex(p);
  }

  /** The cell the solver fills next, with its option count. */
  function NextCell(g: Grid): Choice
    requires WellFormed(g)
  {
    MrvAfter(g, 81)
  }

  /** What the scan promises after k cells: no cell exactly when none of them is blank; otherwise a blank
      among them with the fewest options, the first such one, and its option count in 0..9. */
  lemma {:induction false} MrvAfterChoice(g: Grid, k: int)
    requires WellFormed(g) && 0 <= k <= 81
    ensures var c := MrvAfter(g, k);
      && (c.best.None? <==> forall q :: OnBoard(q) && Index(q) < k ==> g[q] != Blank)
      && (c.best.None? ==> c.minOptions == 10)
      && (c.best.Some? ==>
            var p := c.best.value;
            && OnBoard(p) && Index(p) < k && g[p] == Blank
            && c.minOptions == Options(g, p) && 0 <= c.minOptions <= 9
            && (forall q :: OnBoard(q) && Index(q) < k && g[q] == Blank ==> c.minOptions <= Options(g, q))
            && (forall q :: OnBoard(q) && Index(q) < Index(p) && g[q] == Blank ==> c.minOptions < Options(g, q)))
  {
    if k > 0 {
      MrvAfterChoice(g, k - 1);
      var p := CellAt(k - 1);
      forall q | OnBoard(q) && Index(q) < k
        ensures q == p || Index(q) < k - 1
      {
      }
    }
  }

  /** The solver's choice: no cell exactly when the grid has no blank; otherwise the first blank, in
      A1..I9 order, among those with the fewest options. */
  lemma NextCellChoice(g: Grid)
    requires WellFormed(g)
    ensures NextCell(g).best.None? <==> Blanks(g) == {}
    ensures NextCell(g).best.None? ==> NextCell(g).minOptions == 10
    ensures NextCell(g).best.Some? ==>
      var p := NextCell(g).best.value;
      && OnBoard(p) && g[p] == Blank
      && NextCell(g).minOptions == Options(g, p)
      && (forall q :: q in Blanks(g) ==> Options(g, p) <= Options(g, q))
      && (forall q :: q in Blanks(g) && Index(q) < Index(p) ==> Options(g, p) < Options(g, q))
  {
    MrvAfterChoice(g, 81);
    if NextCell(g).best.None? {
      assert forall q | q in g :: OnBoard(q) && Index(q) < 81;
      assert forall q :: q !in Blanks(g);
    } else {
      assert NextCell(g).best.value in Blanks(g);
    }
  }

  /** The cell chosen, if any, is a blank of g. */
  lemma NextCellBlank(g: Grid)
    requires WellFormed(g)
    ensures NextCell(g).best.Some? ==> NextCell(g).best.value in g && g[NextCell(g).best.value] == Blank
  {
    NextCellChoice(g);
  }

  /** The full grids the search reaches from g, in the order it reaches them. A grid without blanks is
      itself reached; a chosen cell without options ends the branch; otherwise every legal digit is tried
      in increasing order. */
  ghost function Leaves(g: Grid): seq<Grid>
    requires WellFormed(g)
    decreases |Blanks(g)|, PastNine as int + 1
  {
    var c := NextCell(g);
    NextCellBlank(g);
    if c.best.None? then [g]
    else if c.minOptions == 0 then []
    else Before(g, c.best.value, PastNine)
  }

  /** The full grids reached from the blank p of g by the digits '1' up to (not including) upto. */
  ghost function Before(g: Grid, p: Pos, upto: char): seq<Grid>
    requires WellFormed(g) && p in g && g[p] == Blank && '1' <= upto <= PastNine
    decreases |Blanks(g)|, upto as int
  {
    if upto == '1' then []
    else
      var d := Pred(upto);
      Before(g, p, d) + (if CanPlace(g, p, d) then FillShrinks(g, g, p, d); Leaves(g[p := d]) else [])
  }

  /** The search from g with its chosen cell p: nothing when p has no option, otherwise the grids reached
      from p. */
  lemma LeavesOfChoice(g: Grid, p: Pos, m: int)
    requires WellFormed(g) && NextCell(g) == Choice(Some(p), m)
    ensures p in g && g[p] == Blank
    ensures m == 0 ==> Leaves(g) == []
    ensures m != 0 ==> Leaves(g) == Before(g, p, PastNine)
  {
    NextCellChoice(g);
  }

  /** Trying the digit d after the digits below it. */
  lemma BeforeStep(g: Grid, p: Pos, d: char)
    requires WellFormed(g) && p in g && g[p] == Blank && IsDigit(d)
    ensures WellFormed(g[p := d])
    ensures Before(g, p, (d as int + 1) as char) ==
      Before(g, p, d) + (if CanPlace(g, p, d) then Leaves(g[p := d]) else [])
  {
    assert Pred((d as int + 1) as char) == d;
  }

  /** Every grid reached is a full, well-formed extension of g; from the blank p each keeps the digit it
      was reached through. */
  lemma {:induction false} LeavesExtend(g: Grid)
    requires WellFormed(g)
    ensures forall h :: h in Leaves(g) ==> WellFormed(h) && Extends(h, g) && Blanks(h) == {}
    decreases |Blanks(g)|, PastNine as int + 1
  {
    NextCellChoice(g);
    var c := NextCell(g);
    if c.best.Some? && c.minOptions != 0 {
      BeforeExtend(g, c.best.value, PastNine);
    }
  }

  lemma {:induction false} BeforeExtend(g: Grid, p: Pos, upto: char)
    requires WellFormed(g) && p in g && g[p] == Blank && '1' <= upto <= PastNine
    ensures forall h :: h in Before(g, p, upto) ==>
      WellFormed(h) && Extends(h, g) && Blanks(h) == {} && '1' <= h[p] < upto
    decreases |Blanks(g)|, upto as int
  {
    if upto != '1' {
      var d := Pred(upto);
      BeforeExtend(g, p, d);
      if CanPlace(g, p, d) {
        FillShrinks(g, g, p, d);
        LeavesExtend(g[p := d]);
      }
    }
  }

  /** A legal digit keeps a conflict-free grid conflict-free. */
  lemma PlaceKeepsConflictFree(g: Grid, p: Pos, d: char)
    requires WellFormed(g) && ConflictFree(g) && p in g && g[p] == Blank && IsDigit(d) && CanPlace(g, p, d)
    ensures ConflictFree(g[p := d])
  {
    var g' := g[p := d];
    forall q, q' | q in g' && q' in g' && Peers(q, q') && g'[q] != Blank
      ensures g'[q] != g'[q']
    {
    }
  }

  /** From a conflict-free grid, every grid the search reaches is a completion. */
  lemma {:induction false} LeavesSound(g: Grid)
    requires WellFormed(g) && ConflictFree(g)
    ensures forall h :: h in Leaves(g) ==> IsCompletion(g, h)
    decreases |Blanks(g)|, PastNine as int + 1
  {
    NextCellChoice(g);
    LeavesExtend(g);
    var c := NextCell(g);
    if c.best.Some? && c.minOptions != 0 {
      BeforeSound(g, c.best.value, PastNine);
    }
  }

  lemma {:induction false} BeforeSound(g: Grid, p: Pos, upto: char)
    requires WellFormed(g) && ConflictFree(g) && p in g && g[p] == Blank && '1' <= upto <= PastNine
    ensures forall h :: h in Before(g, p, upto) ==> ConflictFree(h)
    decreases |Blanks(g)|, upto as int
  {
    if upto != '1' {
      var d := Pred(upto);
      BeforeSound(g, p, d);
      if CanPlace(g, p, d) {
        FillShrinks(g, g, p, d);
        PlaceKeepsConflictFree(g, p, d);
        LeavesSound(g[p := d]);
      }
    }
  }

  /** The grids reached through a legal digit d below upto are among those reached below upto. */
  lemma {:induction false} BeforeIncludes(g: Grid, p: Pos, upto: char, d: char)
    requires WellFormed(g) && p in g && g[p] == Blank && '1' <= upto <= PastNine
    requires '1' <= d < upto && IsDigit(d) && CanPlace(g, p, d)
    ensures forall h :: h in Leaves(g[p := d]) ==> h in Before(g, p, upto)
    decreases upto as int
  {
    if d != Pred(upto) {
      BeforeIncludes(g, p, Pred(upto), d);
    }
  }

  /** A full extension of g that obeys the rules is reached by the search. */
  lemma {:induction false} LeavesComplete(g: Grid, h: Grid)
    requires WellFormed(g) && IsCompletion(g, h)
    ensures h in Leaves(g)
    decreases |Blanks(g)|
  {
    NextCellChoice(g);
    var c := NextCell(g);
    if c.best.None? {
      CompletionOfFull(g, h);
    } else {
      var p := c.best.value;
      var d := h[p];
      CompletionAllows(g, h, p);
      OptionsZero(g, p);
      FillShrinks(g, g, p, d);
      LeavesComplete(g[p := d], h);
      BeforeIncludes(g, p, PastNine, d);
    }
  }

  /** A grid without blanks is its only completion candidate. */
  lemma CompletionOfFull(g: Grid, h: Grid)
    requires WellFormed(g) && Blanks(g) == {} && Extends(h, g)
    ensures h == g
  {
    forall q | q in g ensures h[q] == g[q] {
      assert q !in Blanks(g);
    }
  }

  /** A completion's digit in a blank of g is legal there, and the completion completes g with that digit. */
  lemma CompletionAllows(g: Grid, h: Grid, p: Pos)
    requires WellFormed(g) && IsCompletion(g, h) && p in g && g[p] == Blank
    ensures IsDigit(h[p]) && CanPlace(g, p, h[p])
    ensures IsCompletion(g[p := h[p]], h)
  {
    var d := h[p];
    assert p !in Blanks(h);
    forall u | u == Row(p.row) || u == Column(p.col) || u == Box(Corner(p))
      ensures d !in UnitDigits(g, u)
    {
      if d in UnitDigits(g, u) {
        var q :| q in g && InUnit(u, q) && g[q] != Blank && g[q] == d;
        assert Peers(p, q);
      }
    }
  }

  predicate Distinct(s: seq<Grid>) {
    forall i, j :: 0 <= i < j < |s| ==> s[i] != s[j]
  }

  /** The search reaches no grid twice. */
  lemma {:induction false} LeavesDistinct(g: Grid)
    requires WellFormed(g)
    ensures Distinct(Leaves(g))
    decreases |Blanks(g)|, PastNine as int + 1
  {
    NextCellChoice(g);
    var c := NextCell(g);
    if c.best.Some? && c.minOptions != 0 {
      BeforeDistinct(g, c.best.value, PastNine);
    }
  }

  lemma {:induction false} BeforeDistinct(g: Grid, p: Pos, upto: char)
    requires WellFormed(g) && p in g && g[p] == Blank && '1' <= upto <= PastNine
    ensures Distinct(Before(g, p, upto))
    decreases |Blanks(g)|, upto as int
  {
    if upto != '1' {
      var d := Pred(upto);
      BeforeDistinct(g, p, d);
      BeforeExtend(g, p, d);
      if CanPlace(g, p, d) {
        FillShrinks(g, g, p, d);
        LeavesDistinct(g[p := d]);
        LeavesExtend(g[p := d]);
        var a, b := Before(g, p, d), Leaves(g[p := d]);
        forall i, j | 0 <= i < j < |a + b| ensures (a + b)[i] != (a + b)[j] {
          if i < |a| && j >= |a| {
            assert (a + b)[i] in a && (a + b)[j] in b;
            assert (a + b)[i][p] < d;
            assert (a + b)[j][p] == d;
          }
        }
      }
    }
  }

  /** Counting the grids the search reaches decides a conflict-free puzzle: none exactly when it has no
      completion, one exactly when its completion is unique, and the first one reached is a completion. */
  lemma LeavesCount(g: Grid)
    requires WellFormed(g) && ConflictFree(g)
    ensures |Leaves(g)| == 0 <==> !HasCompletion(g)
    ensures |Leaves(g)| == 1 <==> UniqueCompletion(g)
    ensures |Leaves(g)| > 0 ==> IsCompletion(g, Leaves(g)[0])
  {
    LeavesSound(g);
    LeavesDistinct(g);
    SomeLeafIffCompletion(g);
    if |Leaves(g)| == 1 {
      OneLeafUnique(g);
    }
    if UniqueCompletion(g) {
      UniqueOneLeaf(g);
    }
  }

  lemma SomeLeafIffCompletion(g: Grid)
    requires WellFormed(g)
    requires forall h :: h in Leaves(g) ==> IsCompletion(g, h)
    ensures |Leaves(g)| == 0 <==> !HasCompletion(g)
    ensures |Leaves(g)| > 0 ==> IsCompletion(g, Leaves(g)[0])
  {
    if HasCompletion(g) {
      var h :| IsCompletion(g, h);
      LeavesComplete(g, h);
    }
    if |Leaves(g)| > 0 {
      assert Leaves(g)[0] in Leaves(g);
    }
  }

  lemma OneLeafUnique(g: Grid)
    requires WellFormed(g) && |Leaves(g)| == 1
    requires forall h :: h in Leaves(g) ==> IsCompletion(g, h)
    ensures UniqueCompletion(g)
  {
    var h := Leaves(g)[0];
    assert IsCompletion(g, h) by { assert h in Leaves(g); }
    forall h' | IsCompletion(g, h') ensures h' == h {
      LeavesComplete(g, h');
      assert Leaves(g) == [h];
    }
  }

  lemma UniqueOneLeaf(g: Grid)
    requires WellFormed(g) && UniqueCompletion(g) && Distinct(Leaves(g))
    requires forall h :: h in Leaves(g) ==> IsCompletion(g, h)
    ensures |Leaves(g)| == 1
  {
    var L := Leaves(g);
    var h :| IsCompletion(g, h) && forall h' :: IsCompletion(g, h') ==> h' == h;
    LeavesComplete(g, h);
    assert forall i | 0 <= i < |L| :: L[i] == h by {
      forall i | 0 <= i < |L| ensures L[i] == h {
        assert L[i] in L;
      }
    }
    DistinctConstant(L, h);
  }

  function ElementOr(s: seq<Grid>, i: int, default: Grid): Grid {
    if 0 <= i < |s| then s[i] else default
  }

  lemma DistinctConstant(s: seq<Grid>, x: Grid)
    requires Distinct(s) && x in s && forall i | 0 <= i < |s| :: s[i] == x
    ensures |s| == 1
  {
    assert ElementOr(s, 0, x) == x && ElementOr(s, 1, x) == x;
    assert |s| > 1 ==> ElementOr(s, 0, x) != ElementOr(s, 1, x);
  }

  /** A grid without blanks is its own single leaf. */
  lemma LeavesOfFull(g: Grid)
    requires WellFormed(g) && Blanks(g) == {}
    ensures Leaves(g) == [g]
  {
    NextCellChoice(g);
  }

  /** Every leaf reached below one digit bound is reached, in the same order, below a higher bound. */
  lemma {:induction false} BeforePrefix(g: Grid, p: Pos, lo: char, hi: char)
    requires WellFormed(g) && p in g && g[p] == Blank && '1' <= lo <= hi <= PastNine
    ensures |Before(g, p, lo)| <= |Before(g, p, hi)|
    ensures Before(g, p, lo) == Before(g, p, hi)[..|Before(g, p, lo)|]
    decreases hi as int
  {
    if lo != hi {
      BeforePrefix(g, p, lo, Pred(hi));
    }
  }
}
