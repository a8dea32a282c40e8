/** The backtracking solver: bookkeeping of the digits used in every row, column and box, the
    minimum-remaining-values choice of the next cell, the depth-first search that counts solutions,
    and the entry point that reports a grid only when its solution is unique. */
module Solver {
  import opened Grid
  import opened SearchSpec

  /** Copies every entry of src into dest, overwriting the keys dest already has. Both may be the same map. */
  method CopyGrid(src: GridMap, dest: GridMap)
    modifies dest
    ensures dest.m == old(dest.m) + old(src.m)
  {
    ghost var s := src.m;
    var todo := src.m.Keys;
    while todo != {}
      invariant todo <= s.Keys
      invariant dest.m == old(dest.m) + map k | k in s.Keys - todo :: s[k]
      invariant src == dest || src.m == s
      invariant src == dest ==> old(dest.m) == s
      decreases |todo|
    {
      var k :| k in todo;
      assert src.m[k] == s[k];
      dest.m := dest.m[k := src.m[k]];
      todo := todo - {k};
    }
    assert (map k | k in s.Keys - todo :: s[k]) == s;
  }

  /** The boxes that hold a clue, named by their corners. */
  function ClueBoxes(g: Grid): set<Pos> {
    set q | q in g && g[q] != Blank :: Corner(q)
  }

  /** A digit the solver wrote (a filled cell that was blank in the clues) shares no unit with the same digit. */
  predicate NoNewConflict(clues: Grid, g: Grid) {
    forall p, q :: p in clues && p in g && q in g && clues[p] == Blank && g[p] != Blank && Peers(p, q) ==> g[q] != g[p]
  }

  /** A digit held by a peer of p may not go into p. */
  lemma PeerBlocks(g: Grid, p: Pos, q: Pos)
    requires q in g && Peers(p, q) && g[q] != Blank
    ensures !CanPlace(g, p, g[q])
  {
    if p.row == q.row {
      assert g[q] in UnitDigits(g, Row(p.row));
    } else if p.col == q.col {
      assert g[q] in UnitDigits(g, Column(p.col));
    } else {
      assert g[q] in UnitDigits(g, Box(Corner(p)));
    }
  }

  /** Writing a legal digit into a blank keeps the solver's own digits free of conflicts. */
  lemma PlaceKeepsNoNewConflict(clues: Grid, g: Grid, p: Pos, d: char)
    requires NoNewConflict(clues, g) && p in g && g[p] == Blank && d != Blank && CanPlace(g, p, d)
    ensures NoNewConflict(clues, g[p := d])
  {
    var g' := g[p := d];
    forall a, b | a in clues && a in g' && b in g' && clues[a] == Blank && g'[a] != Blank && Peers(a, b)
      ensures g'[b] != g'[a]
    {
      if a == p && g'[b] == d {
        PeerBlocks(g, p, b);
      } else if b == p && g'[a] == d {
        PeerBlocks(g, p, a);
      }
    }
  }

  /** The digits of unit u among the first n cells in A1..I9 order. */
  function DigitsBefore(g: Grid, u: Unit, n: int): set<char> {
    set p | p in g && OnBoard(p) && Index(p) < n && InUnit(u, p) && g[p] != Blank :: g[p]
  }

  /** The boxes that hold a clue among the first n cells. */
  function BoxesBefore(g: Grid, n: int): set<Pos> {
    set p | p in g && OnBoard(p) && Index(p) < n && g[p] != Blank :: Corner(p)
  }

  lemma DigitsBeforeStep(g: Grid, u: Unit, c: Pos)
    requires WellFormed(g) && OnBoard(c)
    ensures DigitsBefore(g, u, Index(c) + 1) ==
      DigitsBefore(g, u, Index(c)) + (if InUnit(u, c) && g[c] != Blank then {g[c]} else {})
  {
    forall x | x in DigitsBefore(g, u, Index(c) + 1) ensures x in DigitsBefore(g, u, Index(c)) || x == g[c]
    {
      var p :| p in g && OnBoard(p) && Index(p) < Index(c) + 1 && InUnit(u, p) && g[p] != Blank && g[p] == x;
      if Index(p) == Index(c) {
        CellAtIndex(p);
        CellAtIndex(c);
      }
    }
  }

  lemma BoxesBeforeStep(g: Grid, c: Pos)
    requires WellFormed(g) && OnBoard(c)
    ensures BoxesBefore(g, Index(c) + 1) == BoxesBefore(g, Index(c)) + (if g[c] != Blank then {Corner(c)} else {})
  {
    forall k | k in BoxesBefore(g, Index(c) + 1) ensures k in BoxesBefore(g, Index(c)) || k == Corner(c)
    {
      var p :| p in g && OnBoard(p) && Index(p) < Index(c) + 1 && g[p] != Blank && Corner(p) == k;
      if Index(p) == Index(c) {
        CellAtIndex(p);
        CellAtIndex(c);
      }
    }
  }

  /** A box none of whose first n cells holds a digit has no digits among them. */
  lemma NoBoxNoDigits(g: Grid, n: int, k: Pos)
    requires k !in BoxesBefore(g, n)
    ensures DigitsBefore(g, Box(k), n) == {}
  {
  }

  /** The tables the setup has built after the first n cells: those cells' digits in every row, column and
      box, with a box's table created once one of those cells in it holds a digit. */
  predicate RowsBefore(g: Grid, rows: seq<set<char>>, n: int) {
    |rows| == 9 && forall r | 0 <= r < 9 :: rows[r] == DigitsBefore(g, Row(r), n)
  }

  predicate ColumnsBefore(g: Grid, cols: seq<set<char>>, n: int) {
    |cols| == 9 && forall c | 0 <= c < 9 :: cols[c] == DigitsBefore(g, Column(c), n)
  }

  predicate BoxTablesBefore(g: Grid, boxes: map<Pos, set<char>>, n: int) {
    boxes.Keys == BoxesBefore(g, n) && forall k | k in boxes :: boxes[k] == DigitsBefore(g, Box(k), n)
  }

  lemma RowsStep(g: Grid, rows: seq<set<char>>, c: Pos)
    requires WellFormed(g) && OnBoard(c) && RowsBefore(g, rows, Index(c))
    ensures RowsBefore(g, if g[c] != Blank then rows[c.row := rows[c.row] + {g[c]}] else rows, Index(c) + 1)
  {
    forall u: Unit ensures DigitsBefore(g, u, Index(c) + 1) ==
        DigitsBefore(g, u, Index(c)) + (if InUnit(u, c) && g[c] != Blank then {g[c]} else {}) {
      DigitsBeforeStep(g, u, c);
    }
  }

  lemma ColumnsStep(g: Grid, cols: seq<set<char>>, c: Pos)
    requires WellFormed(g) && OnBoard(c) && ColumnsBefore(g, cols, Index(c))
    ensures ColumnsBefore(g, if g[c] != Blank then cols[c.col := cols[c.col] + {g[c]}] else cols, Index(c) + 1)
  {
    forall u: Unit ensures DigitsBefore(g, u, Index(c) + 1) ==
        DigitsBefore(g, u, Index(c)) + (if InUnit(u, c) && g[c] != Blank then {g[c]} else {}) {
      DigitsBeforeStep(g, u, c);
    }
  }

  lemma BoxTablesSkip(g: Grid, boxes: map<Pos, set<char>>, c: Pos)
    requires WellFormed(g) && OnBoard(c) && BoxTablesBefore(g, boxes, Index(c)) && g[c] == Blank
    ensures BoxTablesBefore(g, boxes, Index(c) + 1)
  {
    BoxesBeforeStep(g, c);
    forall k | k in boxes ensures boxes[k] == DigitsBefore(g, Box(k), Index(c) + 1) {
      DigitsBeforeStep(g, Box(k), c);
    }
  }

  lemma BoxTablesAdd(g: Grid, boxes: map<Pos, set<char>>, made: map<Pos, set<char>>, c: Pos)
    requires WellFormed(g) && OnBoard(c) && BoxTablesBefore(g, boxes, Index(c)) && g[c] != Blank
    requires made == if Corner(c) in boxes then boxes else boxes[Corner(c) := {}]
    ensures Corner(c) in made
    ensures BoxTablesBefore(g, made[Corner(c) := made[Corner(c)] + {g[c]}], Index(c) + 1)
  {
    BoxesBeforeStep(g, c);
    if Corner(c) !in boxes {
      NoBoxNoDigits(g, Index(c), Corner(c));
    }
    assert made[Corner(c)] == DigitsBefore(g, Box(Corner(c)), Index(c));
    var boxes' := made[Corner(c) := made[Corner(c)] + {g[c]}];
    assert boxes'.Keys == BoxesBefore(g, Index(c) + 1);
    forall k | k in boxes' ensures boxes'[k] == DigitsBefore(g, Box(k), Index(c) + 1) {
      DigitsBeforeStep(g, Box(k), c);
    }
  }


  lemma DigitsBeforeAll(g: Grid, u: Unit)
    requires WellFormed(g)
    ensures DigitsBefore(g, u, 81) == UnitDigits(g, u)
  {
    assert forall p | p in g :: OnBoard(p) && Index(p) < 81;
  }

  lemma BoxesBeforeAll(g: Grid)
    requires WellFormed(g)
    ensures BoxesBefore(g, 81) == ClueBoxes(g)
  {
    assert forall p | p in g :: OnBoard(p) && Index(p) < 81;
  }

  /** Once the setup has scanned all 81 cells, its row and column tables mirror the grid, it has a table
      for exactly the boxes that hold a clue, each with that box's digits, and the grid is consistent with
      itself as clues. */
  lemma SetupDone(g: Grid, rows: seq<set<char>>, cols: seq<set<char>>, boxes: map<Pos, set<char>>)
    requires WellFormed(g)
    requires RowsBefore(g, rows, 81) && ColumnsBefore(g, cols, 81) && BoxTablesBefore(g, boxes, 81)
    ensures RowsMirror(g, rows) && ColumnsMirror(g, cols) && Consistent(g, g)
    ensures boxes.Keys == ClueBoxes(g) && forall k | k in boxes :: boxes[k] == UnitDigits(g, Box(k))
  {
    forall u: Unit ensures DigitsBefore(g, u, 81) == UnitDigits(g, u) {
      DigitsBeforeAll(g, u);
    }
    BoxesBeforeAll(g);
  }

  /** What the search has done after reaching the full grids found from g0, having started with c0
      solutions counted and s0 as the saved grid: while at most one solution has been counted, the grid is
      back to g0 and every grid reached was counted; once a second is reached the count is at least two;
      the count never falls; and the first solution ever counted is the one saved. */
  predicate Tally(found: seq<Grid>, g0: Grid, c0: nat, s0: Grid, g: Grid, c: nat, s: Grid) {
    && c >= c0
    && s == (if c0 == 0 && |found| > 0 then s0 + found[0] else s0)
    && (c0 + |found| <= 1 ==> g == g0 && c == c0 + |found|)
    && (c0 + |found| > 1 ==> c >= 2)
  }

  /** Once two solutions are counted, a tally over a prefix of the grids found is a tally over them all. */
  lemma TallyPrefix(found: seq<Grid>, all: seq<Grid>, g0: Grid, c0: nat, s0: Grid, g: Grid, c: nat, s: Grid)
    requires |found| <= |all| && found == all[..|found|]
    requires Tally(found, g0, c0, s0, g, c, s) && c0 + |found| > 1
    ensures Tally(all, g0, c0, s0, g, c, s)
  {
    if |found| > 0 {
      assert found[0] == all[0];
    }
  }

  /** The grid after a digit was written into the blank p of an extension of g0, and the search below it ran,
      extends g0, and still does once p is blanked again. */
  lemma ExtendsAfterPlace(g0: Grid, g1: Grid, p: Pos, d: char, g3: Grid)
    requires Extends(g1, g0) && p in g0 && g0[p] == Blank && Extends(g3, g1[p := d])
    ensures Extends(g3, g0) && Extends(g3[p := Blank], g0)
  {
  }

  /** A search started with no solution counted and no copy saved ends with exactly one solution counted
      precisely when it reached exactly one full grid; the copy is then that grid, and the grid searched is
      back as it was whenever at most one full grid was reached. */
  lemma TallyFromScratch(found: seq<Grid>, g0: Grid, g: Grid, c: nat, s: Grid)
    requires Tally(found, g0, 0, map[], g, c, s)
    ensures c == 1 <==> |found| == 1
    ensures c == 1 ==> s == found[0] && g == g0
    ensures |found| <= 1 ==> g == g0
  {
    if |found| > 0 {
      assert map[] + found[0] == found[0];
    }
  }

  /** A digit the tables refuse adds nothing while the search is faithful, and the tally carries over. */
  lemma TallySkip(B: seq<Grid>, X: seq<Grid>, g0: Grid, c0: nat, s0: Grid, g: Grid, c: nat, s: Grid)
    requires Tally(B, g0, c0, s0, g, c, s)
    requires c0 + |B| <= 1 ==> X == []
    ensures Tally(B + X, g0, c0, s0, g, c, s)
  {
    if |B| > 0 {
      assert (B + X)[0] == B[0];
    }
  }

  /** A digit tried in the blank p of g1: the child search tallies the grids L it reaches from g1[p := d]. While
      the search is faithful those are the grids X that the search from g0 reaches through d, and undoing the
      digit brings the grid back to g0; once a second solution is counted, the tally holds whatever the grid. */
  lemma TallyChild(B: seq<Grid>, X: seq<Grid>, L: seq<Grid>, g0: Grid, c0: nat, s0: Grid, g1: Grid, c1: nat, s1: Grid,
                   p: Pos, d: char, g3: Grid, c3: nat, s3: Grid)
    requires Tally(B, g0, c0, s0, g1, c1, s1)
    requires c0 + |B| <= 1 ==> L == X
    requires Tally(L, g1[p := d], c1, s1, g3, c3, s3)
    requires p in g0 && g0[p] == Blank
    ensures Tally(B + X, g0, c0, s0, g3[p := Blank], c3, s3)
    ensures c3 > 1 ==> c0 + |B + X| > 1 && Tally(B + X, g0, c0, s0, g3, c3, s3)
  {
    if |B| > 0 {
      assert (B + X)[0] == B[0];
    } else if |X| > 0 {
      assert (B + X)[0] == X[0];
    }
    if c0 + |B| <= 1 && c1 + |L| <= 1 {
      assert g3[p := Blank] == g0;
    }
  }

  /** The digit tables hold exactly the digits of every row, column and box of g, with a table for each of
      the nine boxes. */
  predicate Mirrors(g: Grid, rows: seq<set<char>>, cols: seq<set<char>>, boxes: map<Pos, set<char>>) {
    RowsMirror(g, rows) && ColumnsMirror(g, cols) && BoxesMirror(g, boxes)
  }

  predicate RowsMirror(g: Grid, rows: seq<set<char>>) {
    |rows| == 9 && forall r | 0 <= r < 9 :: rows[r] == UnitDigits(g, Row(r))
  }

  predicate ColumnsMirror(g: Grid, cols: seq<set<char>>) {
    |cols| == 9 && forall c | 0 <= c < 9 :: cols[c] == UnitDigits(g, Column(c))
  }

  predicate BoxesMirror(g: Grid, boxes: map<Pos, set<char>>) {
    boxes.Keys == BoxCorners() && forall k | k in boxes :: boxes[k] == UnitDigits(g, Box(k))
  }

  /** g keeps the clues and the rules on what a cell may hold, and the digits the solver wrote conflict with
      nothing. */
  predicate Consistent(clues: Grid, g: Grid) {
    WellFormed(clues) && WellFormed(g) && Extends(g, clues) && NoNewConflict(clues, g)
  }

  /** Looking a digit up in the tables of a cell's row, column and box decides whether it may go there. */
  lemma TablesDecide(g: Grid, rows: seq<set<char>>, cols: seq<set<char>>, boxes: map<Pos, set<char>>, p: Pos, d: char)
    requires Mirrors(g, rows, cols, boxes) && OnBoard(p)
    ensures Corner(p) in boxes
    ensures d !in rows[p.row] && d !in cols[p.col] && d !in boxes[Corner(p)] <==> CanPlace(g, p, d)
  {
    CornerIsBoxCorner(p);
  }

  /** Writing a legal digit into a blank, and adding it to the cell's three tables, keeps the tables exact
      and the grid consistent. */
  lemma PlaceKeeps(clues: Grid, g: Grid, rows: seq<set<char>>, cols: seq<set<char>>, boxes: map<Pos, set<char>>, p: Pos, d: char)
    requires Consistent(clues, g) && Mirrors(g, rows, cols, boxes)
    requires OnBoard(p) && g[p] == Blank && IsDigit(d) && CanPlace(g, p, d)
    ensures Corner(p) in boxes
    ensures Consistent(clues, g[p := d])
    ensures Mirrors(g[p := d], rows[p.row := rows[p.row] + {d}], cols[p.col := cols[p.col] + {d}],
                    boxes[Corner(p) := boxes[Corner(p)] + {d}])
  {
    CornerIsBoxCorner(p);
    PlaceKeepsNoNewConflict(clues, g, p, d);
    PlaceMirrors(g, rows, cols, boxes, p, d);
  }

  lemma PlaceMirrors(g: Grid, rows: seq<set<char>>, cols: seq<set<char>>, boxes: map<Pos, set<char>>, p: Pos, d: char)
    requires Mirrors(g, rows, cols, boxes)
    requires OnBoard(p) && p in g && g[p] == Blank && d != Blank && Corner(p) in boxes
    ensures Mirrors(g[p := d], rows[p.row := rows[p.row] + {d}], cols[p.col := cols[p.col] + {d}],
                    boxes[Corner(p) := boxes[Corner(p)] + {d}])
  {
    PlaceDigit(g, p, d);
    PlaceRows(g, rows, p, d);
    PlaceColumns(g, cols, p, d);
    PlaceBoxes(g, boxes, p, d);
  }

  lemma PlaceRows(g: Grid, rows: seq<set<char>>, p: Pos, d: char)
    requires RowsMirror(g, rows) && OnBoard(p) && p in g && g[p] == Blank
    requires forall u :: UnitDigits(g[p := d], u) == if InUnit(u, p) then UnitDigits(g, u) + {d} else UnitDigits(g, u)
    ensures RowsMirror(g[p := d], rows[p.row := rows[p.row] + {d}])
  {
    var rows' := rows[p.row := rows[p.row] + {d}];
    forall r | 0 <= r < 9 ensures rows'[r] == UnitDigits(g[p := d], Row(r)) {
      assert InUnit(Row(r), p) <==> r == p.row;
    }
  }

  lemma PlaceColumns(g: Grid, cols: seq<set<char>>, p: Pos, d: char)
    requires ColumnsMirror(g, cols) && OnBoard(p) && p in g && g[p] == Blank
    requires forall u :: UnitDigits(g[p := d], u) == if InUnit(u, p) then UnitDigits(g, u) + {d} else UnitDigits(g, u)
    ensures ColumnsMirror(g[p := d], cols[p.col := cols[p.col] + {d}])
  {
    var cols' := cols[p.col := cols[p.col] + {d}];
    forall c | 0 <= c < 9 ensures cols'[c] == UnitDigits(g[p := d], Column(c)) {
      assert InUnit(Column(c), p) <==> c == p.col;
    }
  }

  lemma PlaceBoxes(g: Grid, boxes: map<Pos, set<char>>, p: Pos, d: char)
    requires BoxesMirror(g, boxes) && Corner(p) in boxes && p in g && g[p] == Blank
    requires forall u :: UnitDigits(g[p := d], u) == if InUnit(u, p) then UnitDigits(g, u) + {d} else UnitDigits(g, u)
    ensures BoxesMirror(g[p := d], boxes[Corner(p) := boxes[Corner(p)] + {d}])
  {
    var boxes' := boxes[Corner(p) := boxes[Corner(p)] + {d}];
    assert boxes'.Keys == boxes.Keys;
    forall k | k in boxes' ensures boxes'[k] == UnitDigits(g[p := d], Box(k)) {
      assert InUnit(Box(k), p) <==> k == Corner(p);
    }
  }

  /** Blanking a digit the solver wrote, and removing it from the cell's three tables, keeps the tables exact
      and the grid consistent. */
  lemma UnplaceKeeps(clues: Grid, g: Grid, rows: seq<set<char>>, cols: seq<set<char>>, boxes: map<Pos, set<char>>, p: Pos, d: char)
    requires Consistent(clues, g) && Mirrors(g, rows, cols, boxes)
    requires OnBoard(p) && g[p] == d && IsDigit(d) && clues[p] == Blank
    ensures Corner(p) in boxes
    ensures Consistent(clues, g[p := Blank])
    ensures Mirrors(g[p := Blank], rows[p.row := rows[p.row] - {d}], cols[p.col := cols[p.col] - {d}],
                    boxes[Corner(p) := boxes[Corner(p)] - {d}])
  {
    CornerIsBoxCorner(p);
    assert forall q :: q in g && Peers(p, q) ==> g[q] != g[p];
    UnplaceMirrors(g, rows, cols, boxes, p);
    UnplaceConsistent(clues, g, p);
  }

  lemma UnplaceConsistent(clues: Grid, g: Grid, p: Pos)
    requires Consistent(clues, g) && p in clues && clues[p] == Blank
    ensures Consistent(clues, g[p := Blank])
  {
  }

  lemma UnplaceMirrors(g: Grid, rows: seq<set<char>>, cols: seq<set<char>>, boxes: map<Pos, set<char>>, p: Pos)
    requires Mirrors(g, rows, cols, boxes)
    requires OnBoard(p) && p in g && g[p] != Blank && Corner(p) in boxes
    requires forall q :: q in g && Peers(p, q) ==> g[q] != g[p]
    ensures Mirrors(g[p := Blank], rows[p.row := rows[p.row] - {g[p]}], cols[p.col := cols[p.col] - {g[p]}],
                    boxes[Corner(p) := boxes[Corner(p)] - {g[p]}])
  {
    ClearDigit(g, p);
    UnplaceRows(g, rows, p);
    UnplaceColumns(g, cols, p);
    UnplaceBoxes(g, boxes, p);
  }

  lemma UnplaceRows(g: Grid, rows: seq<set<char>>, p: Pos)
    requires RowsMirror(g, rows) && OnBoard(p) && p in g
    requires forall u :: UnitDigits(g[p := Blank], u) == if InUnit(u, p) then UnitDigits(g, u) - {g[p]} else UnitDigits(g, u)
    ensures RowsMirror(g[p := Blank], rows[p.row := rows[p.row] - {g[p]}])
  {
    var rows' := rows[p.row := rows[p.row] - {g[p]}];
    forall r | 0 <= r < 9 ensures rows'[r] == UnitDigits(g[p := Blank], Row(r)) {
      assert InUnit(Row(r), p) <==> r == p.row;
    }
  }

  lemma UnplaceColumns(g: Grid, cols: seq<set<char>>, p: Pos)
    requires ColumnsMirror(g, cols) && OnBoard(p) && p in g
    requires forall u :: UnitDigits(g[p := Blank], u) == if InUnit(u, p) then UnitDigits(g, u) - {g[p]} else UnitDigits(g, u)
    ensures ColumnsMirror(g[p := Blank], cols[p.col := cols[p.col] - {g[p]}])
  {
    var cols' := cols[p.col := cols[p.col] - {g[p]}];
    forall c | 0 <= c < 9 ensures cols'[c] == UnitDigits(g[p := Blank], Column(c)) {
      assert InUnit(Column(c), p) <==> c == p.col;
    }
  }

  lemma UnplaceBoxes(g: Grid, boxes: map<Pos, set<char>>, p: Pos)
    requires BoxesMirror(g, boxes) && Corner(p) in boxes && p in g
    requires forall u :: UnitDigits(g[p := Blank], u) == if InUnit(u, p) then UnitDigits(g, u) - {g[p]} else UnitDigits(g, u)
    ensures BoxesMirror(g[p := Blank], boxes[Corner(p) := boxes[Corner(p)] - {g[p]}])
  {
    var boxes' := boxes[Corner(p) := boxes[Corner(p)] - {g[p]}];
    assert boxes'.Keys == boxes.Keys;
    forall k | k in boxes' ensures boxes'[k] == UnitDigits(g[p := Blank], Box(k)) {
      assert InUnit(Box(k), p) <==> k == Corner(p);
    }
  }

  /** The three kinds of table after the first n cells. */
  predicate TablesBefore(g: Grid, rows: seq<set<char>>, cols: seq<set<char>>, boxes: map<Pos, set<char>>, n: int) {
    RowsBefore(g, rows, n) && ColumnsBefore(g, cols, n) && BoxTablesBefore(g, boxes, n)
  }

  /** Records every digit of the grid in the table of its row, of its column and of its box, creating a
      box's table only when a digit is found in that box. */
  method RecordTables(cells: Grid) returns (rows: seq<set<char>>, cols: seq<set<char>>, boxes: map<Pos, set<char>>)
    requires WellFormed(cells)
    ensures RowsMirror(cells, rows) && ColumnsMirror(cells, cols)
    ensures boxes.Keys == ClueBoxes(cells) && forall k | k in boxes :: boxes[k] == UnitDigits(cells, Box(k))
  {
    rows := seq(9, _ => {});
    cols := seq(9, _ => {});
    boxes := map[];
    var i := 0;
    while i < 9
      invariant 0 <= i <= 9
      invariant TablesBefore(cells, rows, cols, boxes, i * 9)
    {
      rows, cols, boxes := RecordRow(cells, i, rows, cols, boxes);
      i := i + 1;
    }
    SetupDone(cells, rows, cols, boxes);
  }

  /** A box without a clue gets no table from RecordTables, although all its cells are blank, and when the
      grid has a completion the search reaches a full grid with a digit written into the box: the write
      that places it goes to a table that does not exist. */
  lemma EmptyBoxNoTable(cells: Grid, boxes: map<Pos, set<char>>, k: Pos)
    requires WellFormed(cells) && boxes.Keys == ClueBoxes(cells)
    requires k in BoxCorners() && forall q | q in cells && Corner(q) == k :: cells[q] == Blank
    ensures k !in boxes
    ensures k in Blanks(cells) && Corner(k) == k
    ensures forall h | IsCompletion(cells, h) :: h[k] != Blank
    ensures HasCompletion(cells) ==> exists h :: h in Leaves(cells) && k in h && h[k] != Blank
  {
    CornerIsBoxCorner(k);
    forall h | IsCompletion(cells, h) ensures h[k] != Blank {
      FullCell(h, k);
    }
    if HasCompletion(cells) {
      LeafFillsCell(cells, k);
    }
  }

  lemma FullCell(h: Grid, p: Pos)
    requires WellFormed(h) && Blanks(h) == {} && OnBoard(p)
    ensures p in h && h[p] != Blank
  {
    assert p !in Blanks(h);
  }

  /** When a grid has a completion, the search reaches a full grid, and that grid holds a digit in every cell. */
  lemma LeafFillsCell(g: Grid, p: Pos)
    requires WellFormed(g) && OnBoard(p) && HasCompletion(g)
    ensures exists h :: h in Leaves(g) && p in h && h[p] != Blank
  {
    var h :| IsCompletion(g, h);
    LeavesComplete(g, h);
    FullCell(h, p);
  }

  /** The setup with a table for each of the nine boxes, as the source already has for the rows and the
      columns: the tables mirror the grid whatever boxes hold a clue. */
  method BuildTables(cells: Grid) returns (rows: seq<set<char>>, cols: seq<set<char>>, boxes: map<Pos, set<char>>)
    requires WellFormed(cells)
    ensures Mirrors(cells, rows, cols, boxes)
  {
    var made;
    rows, cols, made := RecordTables(cells);
    boxes := map k | k in BoxCorners() :: if k in made then made[k] else {};
    forall k | k in BoxCorners() && k !in made ensures UnitDigits(cells, Box(k)) == {} {
      assert forall q | q in cells && Corner(q) == k :: cells[q] == Blank;
    }
  }

  /** Records the digits of one row of the grid. */
  method RecordRow(cells: Grid, i: int, rows: seq<set<char>>, cols: seq<set<char>>, boxes: map<Pos, set<char>>)
    returns (rows': seq<set<char>>, cols': seq<set<char>>, boxes': map<Pos, set<char>>)
    requires WellFormed(cells) && 0 <= i < 9 && TablesBefore(cells, rows, cols, boxes, i * 9)
    ensures TablesBefore(cells, rows', cols', boxes', i * 9 + 9)
  {
    rows', cols', boxes' := rows, cols, boxes;
    var j := 0;
    while j < 9
      invariant 0 <= j <= 9
      invariant TablesBefore(cells, rows', cols', boxes', i * 9 + j)
    {
      rows', cols', boxes' := RecordCell(cells, Pos(i, j), rows', cols', boxes');
      j := j + 1;
    }
  }

  /** Records the digit of one cell, if it holds one, creating its box's table at the first digit found in
      that box. */
  method RecordCell(cells: Grid, pos: Pos, rows: seq<set<char>>, cols: seq<set<char>>, boxes: map<Pos, set<char>>)
    returns (rows': seq<set<char>>, cols': seq<set<char>>, boxes': map<Pos, set<char>>)
    requires WellFormed(cells) && OnBoard(pos) && TablesBefore(cells, rows, cols, boxes, Index(pos))
    ensures TablesBefore(cells, rows', cols', boxes', Index(pos) + 1)
  {
    RowsStep(cells, rows, pos);
    ColumnsStep(cells, cols, pos);
    rows', cols', boxes' := rows, cols, boxes;
    var val := cells[pos];
    if val != Blank {
      rows' := rows'[pos.row := rows'[pos.row] + {val}];
      cols' := cols'[pos.col := cols'[pos.col] + {val}];
      if Corner(pos) !in boxes' {
        boxes' := boxes'[Corner(pos) := {}];
      }
      BoxTablesAdd(cells, boxes, boxes', pos);
      boxes' := boxes'[Corner(pos) := boxes'[Corner(pos)] + {val}];
    } else {
      BoxTablesSkip(cells, boxes, pos);
    }
  }

  /** The state of one run of the solver: the grid it fills in place, the digits used in every row, column and
      box, the number of solutions found and the copy of the first one. */
  class Search {
    const grid: GridMap
    const solvedGrid: GridMap
    /** The grid as it was handed to the solver. */
    ghost const clues: Grid
    var usedRows: seq<set<char>>
    var usedCols: seq<set<char>>
    /** Keyed by box corner; a box without a key is one whose table the solver never created. */
    var usedSubgrids: map<Pos, set<char>>
    var solutionCount: nat

    /** The tables mirror the grid, the clues are never overwritten, and the digits the solver wrote conflict
        with nothing. */
    ghost predicate Valid()
      reads this, grid
    {
      && grid != solvedGrid
      && Consistent(clues, grid.m)
      && Mirrors(grid.m, usedRows, usedCols, usedSubgrids)
    }

    /** The part of Valid that reading the tables relies on. */
    ghost predicate TablesMatch()
      reads this, grid
    {
      WellFormed(grid.m) && Mirrors(grid.m, usedRows, usedCols, usedSubgrids)
    }

    /** Builds the tables from the grid. */
    constructor (g: GridMap)
      requires WellFormed(g.m)
      ensures grid == g && clues == g.m && solutionCount == 0
      ensures fresh(solvedGrid) && solvedGrid.m == map[]
      ensures Valid()
    {
      var rows, cols, boxes := BuildTables(g.m);
      grid := g;
      solvedGrid := new GridMap(map[]);
      clues := g.m;
      usedRows := rows;
      usedCols := cols;
      usedSubgrids := boxes;
      solutionCount := 0;
    }

    /** The minimum-remaining-values scan: the first blank, in A1..I9 order, with the fewest digits the
        tables allow, and that number; no cell and 10 when the grid has no blank. */
    method FindNextCell() returns (best: Option<Pos>, minOptions: int)
      requires Valid()
      ensures Choice(best, minOptions) == NextCell(grid.m)
    {
      minOptions := 10;
      best := None;
      var i := 0;
      while i < 9
        invariant 0 <= i <= 9
        invariant Choice(best, minOptions) == MrvAfter(grid.m, i * 9)
      {
        best, minOptions := ScanRow(i, best, minOptions);
        i := i + 1;
      }
    }

    /** The scan over the nine cells of row i, carrying on from the choice made over the rows above it. */
    method ScanRow(i: int, best: Option<Pos>, minOptions: int) returns (best': Option<Pos>, minOptions': int)
      requires TablesMatch() && 0 <= i < 9 && Choice(best, minOptions) == MrvAfter(grid.m, i * 9)
      ensures Choice(best', minOptions') == MrvAfter(grid.m, (i + 1) * 9)
    {
      best', minOptions' := best, minOptions;
      var j := 0;
      ghost var k := i * 9;
      while j < 9
        invariant 0 <= j <= 9 && k == i * 9 + j
        invariant Choice(best', minOptions') == MrvAfter(grid.m, k)
      {
        best', minOptions' := ScanCell(Pos(i, j), k, best', minOptions');
        j := j + 1;
        k := k + 1;
      }
    }

    /** One step of the scan, at the cell pos, which is the k-th in A1..I9 order: a blank with fewer options
        than the best so far becomes the best. */
    method ScanCell(pos: Pos, ghost k: int, best: Option<Pos>, minOptions: int) returns (best': Option<Pos>, minOptions': int)
      requires TablesMatch() && OnBoard(pos) && k == Index(pos) && Choice(best, minOptions) == MrvAfter(grid.m, k)
      ensures Choice(best', minOptions') == MrvAfter(grid.m, k + 1)
    {
      MrvStep(grid.m, pos);
      best', minOptions' := best, minOptions;
      if grid.m[pos] == Blank {
        var options := CountOptions(pos);
        if options < minOptions {
          minOptions' := options;
          best' := Some(pos);
        }
      }
    }

    /** The number of digits the tables allow in a cell. */
    method CountOptions(pos: Pos) returns (options: int)
      requires TablesMatch() && OnBoard(pos)
      ensures options == Options(grid.m, pos)
    {
      options := 0;
      var num := '1';
      while num <= '9'
        invariant '1' <= num <= PastNine
        invariant options == LegalBelow(grid.m, pos, num)
      {
        TablesDecide(grid.m, usedRows, usedCols, usedSubgrids, pos, num);
        var free := num !in usedRows[pos.row] && num !in usedCols[pos.col] && num !in usedSubgrids[Corner(pos)];
        assert free == CanPlace(grid.m, pos, num);
        if free {
          options := options + 1;
        }
        num := (num as int + 1) as char;
      }
    }

    /** Writes a legal digit into a blank and marks it used in the cell's row, column and box. */
    method Place(p: Pos, d: char)
      requires Valid() && OnBoard(p) && grid.m[p] == Blank && IsDigit(d) && CanPlace(grid.m, p, d)
      modifies this, grid
      ensures Valid()
      ensures grid.m == old(grid.m)[p := d]
      ensures usedRows == old(usedRows)[p.row := old(usedRows)[p.row] + {d}]
      ensures usedCols == old(usedCols)[p.col := old(usedCols)[p.col] + {d}]
      ensures usedSubgrids == old(usedSubgrids)[Corner(p) := old(usedSubgrids)[Corner(p)] + {d}]
      ensures solutionCount == old(solutionCount)
    {
      PlaceKeeps(clues, grid.m, usedRows, usedCols, usedSubgrids, p, d);
      var k := Corner(p);
      grid.m := grid.m[p := d];
      usedRows := usedRows[p.row := usedRows[p.row] + {d}];
      usedCols := usedCols[p.col := usedCols[p.col] + {d}];
      usedSubgrids := usedSubgrids[k := usedSubgrids[k] + {d}];
    }

    /** Blanks a cell the solver filled and marks its digit unused again in the cell's row, column and box. */
    method Unplace(p: Pos, d: char)
      requires Valid() && OnBoard(p) && grid.m[p] == d && IsDigit(d) && clues[p] == Blank
      modifies this, grid
      ensures Valid()
      ensures grid.m == old(grid.m)[p := Blank]
      ensures usedRows == old(usedRows)[p.row := old(usedRows)[p.row] - {d}]
      ensures usedCols == old(usedCols)[p.col := old(usedCols)[p.col] - {d}]
      ensures usedSubgrids == old(usedSubgrids)[Corner(p) := old(usedSubgrids)[Corner(p)] - {d}]
      ensures solutionCount == old(solutionCount)
    {
      UnplaceKeeps(clues, grid.m, usedRows, usedCols, usedSubgrids, p, d);
      var k := Corner(p);
      grid.m := grid.m[p := Blank];
      usedRows := usedRows[p.row := usedRows[p.row] - {d}];
      usedCols := usedCols[p.col := usedCols[p.col] - {d}];
      usedSubgrids := usedSubgrids[k := usedSubgrids[k] - {d}];
    }

    /** One level of the search. It reports true exactly when the grid has no blank, and changes nothing
        then. Otherwise it fills the chosen cell with every digit the tables allow, in increasing order,
        counting each full grid reached below it and saving the first. On counting a second or later
        solution this level returns at once, leaving its cell filled; its caller undoes its own digit and
        goes on with its next one, so the count may pass two. */
    method Solve() returns (done: bool)
      requires Valid()
      modifies this, grid, solvedGrid
      ensures Valid()
      ensures Extends(grid.m, old(grid.m))
      ensures done <==> Blanks(old(grid.m)) == {}
      ensures done ==> grid.m == old(grid.m) && solutionCount == old(solutionCount) && solvedGrid.m == old(solvedGrid.m)
      ensures !done ==> Tally(Leaves(old(grid.m)), old(grid.m), old(solutionCount), old(solvedGrid.m),
                              grid.m, solutionCount, solvedGrid.m)
      decreases |Blanks(grid.m)|, 2
    {
      ghost var g0, c0, s0 := grid.m, solutionCount, solvedGrid.m;
      var best, minOptions := FindNextCell();
      NextCellChoice(g0);
      if best.None? {
        return true;
      }
      var pos := best.value;
      LeavesOfChoice(g0, pos, minOptions);
      if minOptions == 0 {
        assert Tally([], g0, c0, s0, grid.m, solutionCount, solvedGrid.m);
        return false;
      }
      var num := '1';
      while num <= '9'
        invariant '1' <= num <= PastNine
        invariant Valid() && Extends(grid.m, g0) && grid.m[pos] == Blank
        invariant Tally(Before(g0, pos, num), g0, c0, s0, grid.m, solutionCount, solvedGrid.m)
        decreases PastNine as int - num as int
      {
        var stop := TryDigit(pos, num, g0, c0, s0);
        if stop {
          BeforePrefix(g0, pos, (num as int + 1) as char, PastNine);
          TallyPrefix(Before(g0, pos, (num as int + 1) as char), Before(g0, pos, PastNine), g0, c0, s0, grid.m, solutionCount, solvedGrid.m);
          return false;
        }
        num := (num as int + 1) as char;
      }
      assert num as int == 58;
      return false;
    }

    /** One turn of the digit loop of Solve at the blank pos of g0: when the tables allow num there, it writes
        num and searches below it; otherwise it moves on. The tally of the loop moves on to the digits up to
        num. */
    method TryDigit(pos: Pos, num: char, ghost g0: Grid, ghost c0: nat, ghost s0: Grid) returns (stop: bool)
      requires Valid() && IsDigit(num) && WellFormed(g0) && pos in g0 && g0[pos] == Blank
      requires Extends(grid.m, g0) && grid.m[pos] == Blank
      requires Tally(Before(g0, pos, num), g0, c0, s0, grid.m, solutionCount, solvedGrid.m)
      modifies this, grid, solvedGrid
      ensures Valid() && Extends(grid.m, g0)
      ensures !stop ==> grid.m[pos] == Blank
      ensures stop ==> grid.m[pos] == num
      ensures Tally(Before(g0, pos, (num as int + 1) as char), g0, c0, s0, grid.m, solutionCount, solvedGrid.m)
      ensures stop ==> c0 + |Before(g0, pos, (num as int + 1) as char)| > 1
      decreases |Blanks(g0)|, 1
    {
      ghost var B := Before(g0, pos, num);
      BeforeStep(g0, pos, num);
      ghost var X := if CanPlace(g0, pos, num) then Leaves(g0[pos := num]) else [];
      TablesDecide(grid.m, usedRows, usedCols, usedSubgrids, pos, num);
      if num !in usedRows[pos.row] && num !in usedCols[pos.col] && num !in usedSubgrids[Corner(pos)] {
        stop := Descend(pos, num, g0, c0, s0, B, X);
      } else {
        TallySkip(B, X, g0, c0, s0, grid.m, solutionCount, solvedGrid.m);
        stop := false;
      }
    }

    /** Writes the legal digit num into the blank pos, runs the search below it, counts the solution when that
        filled the grid, and undoes num unless that was a second solution, in which case it reports that the
        search stops. While the search is faithful, X is what the search from g0 reaches through num. */
    method Descend(pos: Pos, num: char, ghost g0: Grid, ghost c0: nat, ghost s0: Grid, ghost B: seq<Grid>, ghost X: seq<Grid>)
      returns (stop: bool)
      requires Valid() && IsDigit(num) && pos in g0 && g0[pos] == Blank
      requires Extends(grid.m, g0) && grid.m[pos] == Blank && CanPlace(grid.m, pos, num)
      requires Tally(B, g0, c0, s0, grid.m, solutionCount, solvedGrid.m)
      requires c0 + |B| <= 1 ==> X == Leaves(grid.m[pos := num])
      modifies this, grid, solvedGrid
      ensures Valid() && Extends(grid.m, g0)
      ensures !stop ==> grid.m[pos] == Blank
      ensures stop ==> grid.m[pos] == num
      ensures Tally(B + X, g0, c0, s0, grid.m, solutionCount, solvedGrid.m)
      ensures stop ==> c0 + |B + X| > 1
      decreases |Blanks(g0)|, 0
    {
      ghost var g1, c1, s1 := grid.m, solutionCount, solvedGrid.m;
      FillShrinks(g0, grid.m, pos, num);
      Place(pos, num);
      ghost var g2 := grid.m;
      var solved := Solve();
      if solved {
        LeavesOfFull(g2);
        CountSolution();
        if solutionCount > 1 {
          TallyChild(B, X, Leaves(g2), g0, c0, s0, g1, c1, s1, pos, num, grid.m, solutionCount, solvedGrid.m);
          ExtendsAfterPlace(g0, g1, pos, num, grid.m);
          return true;
        }
      }
      TallyChild(B, X, Leaves(g2), g0, c0, s0, g1, c1, s1, pos, num, grid.m, solutionCount, solvedGrid.m);
      ExtendsAfterPlace(g0, g1, pos, num, grid.m);
      Unplace(pos, num);
      return false;
    }

    /** Counts a solution just reached, and saves a copy of the grid when it is the first. */
    method CountSolution()
      requires Valid()
      modifies this, solvedGrid
      ensures Valid()
      ensures grid.m == old(grid.m)
      ensures solutionCount == old(solutionCount) + 1
      ensures solvedGrid.m == if solutionCount == 1 then old(solvedGrid.m) + grid.m else old(solvedGrid.m)
    {
      solutionCount := solutionCount + 1;
      if solutionCount == 1 {
        CopyGrid(grid, solvedGrid);
      }
    }
  }

  /** Solves a puzzle in place. It reports a grid only when the search reaches exactly one full grid, and then
      reports a fresh copy of it and leaves the caller's grid as it was; otherwise it reports the caller's
      grid, which the search may have left partly filled. A grid with no blank is reported as not solved. */
  method SolveSudoku(grid: GridMap) returns (result: GridMap, ok: bool)
    requires WellFormed(grid.m)
    modifies grid
    ensures ok <==> Blanks(old(grid.m)) != {} && |Leaves(old(grid.m))| == 1
    ensures ok ==> fresh(result) && result.m == Leaves(old(grid.m))[0] && grid.m == old(grid.m)
    ensures !ok ==> result == grid && Extends(grid.m, old(grid.m))
    ensures !ok && |Leaves(old(grid.m))| <= 1 ==> grid.m == old(grid.m)
    ensures ok && ConflictFree(old(grid.m)) ==> IsCompletion(old(grid.m), result.m) && UniqueCompletion(old(grid.m))
    ensures ConflictFree(old(grid.m)) && Blanks(old(grid.m)) != {} && UniqueCompletion(old(grid.m)) ==> ok
  {
    var s := new Search(grid);
    ghost var g0 := grid.m;
    var done := s.Solve();
    if done {
      LeavesOfFull(g0);
    } else {
      TallyFromScratch(Leaves(g0), g0, grid.m, s.solutionCount, s.solvedGrid.m);
    }
    if ConflictFree(g0) {
      LeavesCount(g0);
    }
    if s.solutionCount != 1 {
      return grid, false;
    }
    return s.solvedGrid, true;
  }

  /** A grid that has no blank and breaks no rule is its own unique completion, yet SolveSudoku reports it
      as not solved: its outcome condition asks for a blank, because the search counts only the full grids
      it reaches by placing a digit. */
  lemma FullGridRejected(g: Grid)
    requires WellFormed(g) && ConflictFree(g) && Blanks(g) == {}
    ensures UniqueCompletion(g) && Leaves(g) == [g]
  {
    LeavesOfFull(g);
    LeavesCount(g);
  }

  /** SolveSudoku with the completion of a grid that has no blank counted as its one solution: it reports
      a grid exactly when the search reaches exactly one full grid, so for a rule-abiding grid exactly when
      the grid has a unique completion. */
  method SolveSudokuCounted(grid: GridMap) returns (result: GridMap, ok: bool)
    requires WellFormed(grid.m)
    modifies grid
    ensures ok <==> |Leaves(old(grid.m))| == 1
    ensures ok ==> fresh(result) && result.m == Leaves(old(grid.m))[0] && grid.m == old(grid.m)
    ensures !ok ==> result == grid && Extends(grid.m, old(grid.m))
    ensures !ok && |Leaves(old(grid.m))| == 0 ==> grid.m == old(grid.m)
    ensures ConflictFree(old(grid.m)) ==> (ok <==> UniqueCompletion(old(grid.m)))
    ensures ok && ConflictFree(old(grid.m)) ==> IsCompletion(old(grid.m), result.m)
  {
    var s := new Search(grid);
    ghost var g0 := grid.m;
    var done := s.Solve();
    if done {
      LeavesOfFull(g0);
      s.CountSolution();
    } else {
      TallyFromScratch(Leaves(g0), g0, grid.m, s.solutionCount, s.solvedGrid.m);
    }
    if ConflictFree(g0) {
      LeavesCount(g0);
    }
    if s.solutionCount != 1 {
      return grid, false;
    }
    return s.solvedGrid, true;
  }
}
