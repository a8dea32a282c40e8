/** Reading a puzzle from the nine command-line rows and checking it before the search starts.

    The arguments are the program's argument vector, the program name first. A row's characters are taken as
    ASCII: any other character fails the character check, so the byte and rune views of a row agree up to
    the first rejected character. */
module Parser {
  import opened Grid
  import opened SearchSpec

  /** The ways an input is refused, in the order the checks run. */
  datatype ParseError =
    | WrongRowCount(got: int)
    | RowLength(row: int)
    | BadCharacter(row: int)
    | TooFewClues(count: int)
    | Conflicts
    | EmptyGrid

  /** The fewest clues a puzzle may have. */
  const MinClues := 17

  /** A character a row may hold: a digit or the blank. */
  predicate Allowed(ch: char) {
    IsDigit(ch) || ch == Blank
  }

  /** The verdict on row number i (1..9): its length is checked before its characters. */
  function RowCheck(row: string, i: int): (r: Option<ParseError>)
    ensures r.None? <==> |row| == 9 && forall j | 0 <= j < 9 :: Allowed(row[j])
  {
    if |row| != 9 then Some(RowLength(i))
    else if exists j | 0 <= j < 9 :: !Allowed(row[j]) then Some(BadCharacter(i))
    else None
  }

  /** Row number k passes its checks. */
  predicate RowOk(args: seq<string>, k: int)
    requires 1 <= k < |args|
  {
    RowCheck(args[k], k).None?
  }

  /** The verdict on the rows i..9, taken in order: the first row refused decides. */
  function FirstRowError(args: seq<string>, i: int): (r: Option<ParseError>)
    requires |args| == 10 && 1 <= i <= 10
    ensures r.None? <==> forall k | i <= k <= 9 :: RowOk(args, k)
    decreases 10 - i
  {
    if i == 10 then None
    else if !RowOk(args, i) then RowCheck(args[i], i)
    else FirstRowError(args, i + 1)
  }

  /** When the rows before i pass, the first row error is the first one from row i on. */
  lemma {:induction false} FirstRowErrorFrom(args: seq<string>, i: int)
    requires |args| == 10 && 1 <= i <= 10 && forall k | 1 <= k < i :: RowOk(args, k)
    ensures FirstRowError(args, 1) == FirstRowError(args, i)
    decreases i
  {
    if i > 1 {
      FirstRowErrorFrom(args, i - 1);
    }
  }

  /** A row error found from row i on is the error of some row k, and every row between i and k passes. */
  lemma {:induction false} FirstRowErrorIs(args: seq<string>, i: int) returns (k: int)
    requires |args| == 10 && 1 <= i <= 10 && FirstRowError(args, i).Some?
    ensures i <= k <= 9 && FirstRowError(args, i) == RowCheck(args[k], k)
    ensures forall m | i <= m < k :: RowOk(args, m)
    decreases 10 - i
  {
    if !RowOk(args, i) {
      k := i;
    } else {
      k := FirstRowErrorIs(args, i + 1);
    }
  }

  /** Nine arguments after the program name, each nine allowed characters. */
  predicate WellShaped(args: seq<string>) {
    |args| == 10 && forall k | 1 <= k <= 9 :: RowOk(args, k)
  }

  /** The grid the rows spell: row number r + 1 gives the cells of row r, character c the cell in column c. */
  function GridOf(args: seq<string>): (g: Grid)
    requires WellShaped(args)
    ensures WellFormed(g)
  {
    assert forall p | p in AllCells() :: RowOk(args, p.row + 1);
    map p | p in AllCells() :: args[p.row + 1][p.col]
  }

  /** The character row number r + 1 holds for the cell p, or a dot when the row is too short to hold one. */
  function CharAt(args: seq<string>, p: Pos): char
    requires |args| == 10 && OnBoard(p)
  {
    if p.col < |args[p.row + 1]| then args[p.row + 1][p.col] else Blank
  }

  /** The first k cells, in A1..I9 order, that the rows spell. */
  function Prefix(args: seq<string>, k: int): Grid
    requires |args| == 10
  {
    map p | p in AllCells() && Index(p) < k :: CharAt(args, p)
  }

  /** Reading the cell p after the cells before it adds p to the grid read so far, and adds one clue exactly
      when p holds one. */
  lemma PrefixStep(args: seq<string>, p: Pos, k: int)
    requires |args| == 10 && OnBoard(p) && k == Index(p)
    ensures p !in Prefix(args, k)
    ensures Prefix(args, k + 1) == Prefix(args, k)[p := CharAt(args, p)]
    ensures |Clues(Prefix(args, k + 1))| == |Clues(Prefix(args, k))| + (if CharAt(args, p) != Blank then 1 else 0)
  {
    var ch := CharAt(args, p);
    var g := Prefix(args, k);
    assert Prefix(args, k + 1) == g[p := ch] by {
      forall q | OnBoard(q) ensures Index(q) < k + 1 <==> Index(q) < k || q == p {
      }
    }
    if ch != Blank {
      assert Clues(g[p := ch]) == Clues(g) + {p};
    } else {
      assert Clues(g[p := ch]) == Clues(g);
    }
  }

  /** All 81 cells read spell the grid. */
  lemma PrefixAll(args: seq<string>)
    requires WellShaped(args)
    ensures Prefix(args, 81) == GridOf(args)
  {
    forall p | p in AllCells() ensures Index(p) < 81 && p.col < |args[p.row + 1]| {
      assert RowOk(args, p.row + 1);
    }
  }

  /** The rune a Go map gives for a key: the stored one, or the zero rune when the map lacks the key. */
  function Lookup(g: Grid, p: Pos): char {
    if p in g then g[p] else 0 as char
  }

  /** p itself or a cell that shares a row, a column or a box with it. */
  predicate SameUnit(p: Pos, q: Pos) {
    q == p || Peers(p, q)
  }

  /** The cell in row i and column j of the box whose top-left cell is k. */
  function BoxCell(k: Pos, i: int, j: int): Pos {
    Pos(k.row + i, k.col + j)
  }

  /** num is in none of the nine cells of row r. */
  predicate RowScan(g: Grid, r: int, num: char) {
    forall c | 0 <= c < 9 :: Lookup(g, Pos(r, c)) != num
  }

  /** num is in none of the nine cells of column c. */
  predicate ColumnScan(g: Grid, c: int, num: char) {
    forall r | 0 <= r < 9 :: Lookup(g, Pos(r, c)) != num
  }

  /** num is in none of the nine cells of the box whose top-left cell is k. */
  predicate BoxScan(g: Grid, k: Pos, num: char) {
    forall i, j | 0 <= i < 3 && 0 <= j < 3 :: Lookup(g, BoxCell(k, i, j)) != num
  }

  /** The three scans from p together visit exactly the cells of p's row, column and box. */
  lemma ScansCoverUnits(g: Grid, p: Pos, num: char)
    requires OnBoard(p)
    ensures RowScan(g, p.row, num) && ColumnScan(g, p.col, num) && BoxScan(g, Corner(p), num)
        <==> forall q | OnBoard(q) && SameUnit(p, q) :: Lookup(g, q) != num
  {
    if RowScan(g, p.row, num) && ColumnScan(g, p.col, num) && BoxScan(g, Corner(p), num) {
      forall q | OnBoard(q) && SameUnit(p, q) ensures Lookup(g, q) != num {
        ScanSeesCell(g, p, q, num);
      }
    }
    if forall q | OnBoard(q) && SameUnit(p, q) :: Lookup(g, q) != num {
      var k := Corner(p);
      forall i, j | 0 <= i < 3 && 0 <= j < 3 ensures Lookup(g, BoxCell(k, i, j)) != num {
        BoxCellInBox(p, i, j);
      }
    }
  }

  /** The box scan from p stays inside p's box. */
  lemma BoxCellInBox(p: Pos, i: int, j: int)
    requires OnBoard(p) && 0 <= i < 3 && 0 <= j < 3
    ensures OnBoard(BoxCell(Corner(p), i, j)) && Corner(BoxCell(Corner(p), i, j)) == Corner(p)
  {
    var r, c := p.row / 3, p.col / 3;
    assert (r * 3 + i) / 3 == r && (c * 3 + j) / 3 == c;
  }

  /** Each cell of p's row, column or box is one the scans look at. */
  lemma ScanSeesCell(g: Grid, p: Pos, q: Pos, num: char)
    requires OnBoard(p) && OnBoard(q) && SameUnit(p, q)
    requires RowScan(g, p.row, num) && ColumnScan(g, p.col, num) && BoxScan(g, Corner(p), num)
    ensures Lookup(g, q) != num
  {
    var k := Corner(p);
    if q.row == p.row {
      assert q == Pos(p.row, q.col);
    } else if q.col == p.col {
      assert q == Pos(q.row, p.col);
    } else {
      assert q == BoxCell(k, q.row - k.row, q.col - k.col);
    }
  }

  /** Whether num may go into p: it is looked up in the nine cells of p's row, the nine of its column and
      the nine of its box, and found in none of them. */
  function IsValid(g: Grid, p: Pos, num: char): (ok: bool)
    requires OnBoard(p)
    ensures ok <==> forall q | OnBoard(q) && SameUnit(p, q) :: Lookup(g, q) != num
  {
    ScansCoverUnits(g, p, num);
    RowScan(g, p.row, num) && ColumnScan(g, p.col, num) && BoxScan(g, Corner(p), num)
  }

  /** The source's scan decides the solver's rule: on a well-formed grid, a digit passes the scan exactly
      when it is in none of the cell's row, column and box. */
  lemma IsValidIffCanPlace(g: Grid, p: Pos, d: char)
    requires WellFormed(g) && OnBoard(p) && IsDigit(d)
    ensures IsValid(g, p, d) <==> CanPlace(g, p, d)
  {
    if IsValid(g, p, d) {
      forall u | u in {Row(p.row), Column(p.col), Box(Corner(p))} ensures d !in UnitDigits(g, u) {
      }
    }
    if CanPlace(g, p, d) {
      forall q | OnBoard(q) && SameUnit(p, q) ensures Lookup(g, q) != d {
        assert q in g;
      }
    }
  }

  /** Every key names a cell of the board. */
  predicate OnBoardKeys(g: Grid) {
    forall p | p in g :: OnBoard(p)
  }

  /** What the validation decides: every clue, with its own cell blanked, passes the scan. */
  predicate Validates(g: Grid)
    requires OnBoardKeys(g)
  {
    forall p | p in g && g[p] != Blank :: IsValid(g[p := Blank], p, g[p])
  }

  /** On a well-formed grid the validation accepts exactly the grids without two equal digits in a row, a
      column or a box. */
  lemma ValidatesIffConflictFree(g: Grid)
    requires WellFormed(g)
    ensures Validates(g) <==> ConflictFree(g)
  {
    if Validates(g) {
      forall p, q | p in g && q in g && Peers(p, q) && g[p] != Blank ensures g[p] != g[q] {
        assert IsValid(g[p := Blank], p, g[p]);
        assert Lookup(g[p := Blank], q) == g[q];
      }
    }
    if ConflictFree(g) {
      forall p | p in g && g[p] != Blank ensures IsValid(g[p := Blank], p, g[p]) {
        forall q | OnBoard(q) && SameUnit(p, q) ensures Lookup(g[p := Blank], q) != g[p] {
          if q != p {
            assert q in g && Peers(p, q);
          }
        }
      }
    }
  }

  /** Checks every clue in turn, in whatever order the keys come: the clue's cell is blanked, the clue is
      scanned for, and the cell is restored. The first clue that fails stops the check with its cell left
      blank. */
  method ValidateInitialGrid(grid: GridMap) returns (ok: bool)
    requires OnBoardKeys(grid.m)
    modifies grid
    ensures ok <==> Validates(old(grid.m))
    ensures ok ==> grid.m == old(grid.m)
    ensures !ok ==> exists p | p in old(grid.m) && old(grid.m)[p] != Blank :: grid.m == old(grid.m)[p := Blank]
  {
    ghost var g := grid.m;
    var todo := grid.m.Keys;
    while todo != {}
      invariant todo <= g.Keys && grid.m == g
      invariant forall p | p in g.Keys - todo && g[p] != Blank :: IsValid(g[p := Blank], p, g[p])
      decreases |todo|
    {
      var pos :| pos in todo;
      var val := grid.m[pos];
      if val != Blank {
        var original := grid.m[pos];
        grid.m := grid.m[pos := Blank];
        if !IsValid(grid.m, pos, original) {
          return false;
        }
        grid.m := grid.m[pos := original];
        assert grid.m == g;
      }
      todo := todo - {pos};
    }
    return true;
  }

  /** Whether every cell holds the blank. */
  function IsEmptyGrid(g: Grid): (empty: bool)
    ensures empty <==> |Clues(g)| == 0
  {
    var empty := forall p | p in g :: g[p] == Blank;
    assert !empty ==> |Clues(g)| != 0 by {
      if !empty {
        var p :| p in g && g[p] != Blank;
        assert p in Clues(g);
      }
    }
    empty
  }

  /** The outcome of parsing: the first check that fails names the error, and no error means the grid the
      rows spell is accepted. */
  function Verdict(args: seq<string>): Option<ParseError> {
    if |args| != 10 then Some(WrongRowCount(|args| - 1))
    else if FirstRowError(args, 1).Some? then FirstRowError(args, 1)
    else
      var g := GridOf(args);
      if |Clues(g)| < MinClues then Some(TooFewClues(|Clues(g)|))
      else if !Validates(g) then Some(Conflicts)
      else if IsEmptyGrid(g) then Some(EmptyGrid)
      else None
  }

  /** Reads row number i of the arguments into the grid read so far, counting its clues; a row of the wrong
      length, or the first character that is neither a digit nor a dot, stops the parse. */
  method ParseRow(args: seq<string>, i: int, cells: Grid, clueCount: int)
    returns (err: Option<ParseError>, cells': Grid, clueCount': int)
    requires |args| == 10 && 1 <= i <= 9
    requires forall k | 1 <= k < i :: RowOk(args, k)
    requires cells == Prefix(args, (i - 1) * 9) && clueCount == |Clues(cells)|
    ensures err == RowCheck(args[i], i)
    ensures err.None? ==> cells' == Prefix(args, i * 9) && clueCount' == |Clues(cells')|
  {
    var row := args[i];
    if |row| != 9 {
      return Some(RowLength(i)), cells, clueCount;
    }
    cells', clueCount' := cells, clueCount;
    var j := 0;
    while j < 9
      invariant 0 <= j <= 9
      invariant forall c | 0 <= c < j :: Allowed(row[c])
      invariant cells' == Prefix(args, (i - 1) * 9 + j) && clueCount' == |Clues(cells')|
    {
      var bad;
      bad, cells', clueCount' := ReadCell(args, Pos(i - 1, j), (i - 1) * 9 + j, cells', clueCount');
      if bad {
        return Some(BadCharacter(i)), cells', clueCount';
      }
      j := j + 1;
    }
    return None, cells', clueCount';
  }

  /** Reads the character of the cell p, the k-th in A1..I9 order, into the grid read so far; refuses a
      character that is neither a digit nor a dot, and counts a digit as a clue. */
  method ReadCell(args: seq<string>, p: Pos, k: int, cells: Grid, clueCount: int)
    returns (bad: bool, cells': Grid, clueCount': int)
    requires |args| == 10 && OnBoard(p) && k == Index(p) && |args[p.row + 1]| == 9
    requires cells == Prefix(args, k) && clueCount == |Clues(cells)|
    ensures bad <==> !Allowed(args[p.row + 1][p.col])
    ensures !bad ==> cells' == Prefix(args, k + 1) && clueCount' == |Clues(cells')|
  {
    var ch := args[p.row + 1][p.col];
    if (ch < '1' || ch > '9') && ch != '.' {
      return true, cells, clueCount;
    }
    PrefixStep(args, p, k);
    cells' := cells[p := ch];
    clueCount' := clueCount;
    if ch != '.' {
      clueCount' := clueCount' + 1;
    }
    return false, cells', clueCount';
  }

  /** Reads the nine rows in order into a grid, counting the clues, and stops at the first row refused. */
  method ParseRows(args: seq<string>) returns (err: Option<ParseError>, cells: Grid, clueCount: int)
    requires |args| == 10
    ensures err == FirstRowError(args, 1)
    ensures err.None? ==> WellShaped(args) && cells == GridOf(args) && clueCount == |Clues(cells)|
  {
    cells := map[];
    clueCount := 0;
    assert cells == Prefix(args, 0);
    var i := 1;
    while i <= 9
      invariant 1 <= i <= 10
      invariant forall k | 1 <= k < i :: RowOk(args, k)
      invariant cells == Prefix(args, (i - 1) * 9) && clueCount == |Clues(cells)|
    {
      err, cells, clueCount := ParseRow(args, i, cells, clueCount);
      if err.Some? {
        FirstRowErrorFrom(args, i);
        return;
      }
      i := i + 1;
    }
    FirstRowErrorFrom(args, 10);
    PrefixAll(args);
    err := None;
  }

  /** Parses the argument vector into a grid, running the checks in the order the source does: the number of
      rows, then each row's length and characters, then the clue count, then conflicts, then the empty
      grid. It reports a fresh grid exactly when no check fails. */
  method ParseInput(args: seq<string>) returns (grid: GridMap?, err: Option<ParseError>)
    ensures err == Verdict(args)
    ensures grid != null <==> err.None?
    ensures grid != null ==> fresh(grid) && grid.m == GridOf(args)
  {
    if |args| != 10 {
      return null, Some(WrongRowCount(|args| - 1));
    }
    var e, cells, clueCount := ParseRows(args);
    if e.Some? {
      return null, e;
    }
    if clueCount < MinClues {
      return null, Some(TooFewClues(clueCount));
    }
    grid := new GridMap(cells);
    var valid := ValidateInitialGrid(grid);
    if !valid {
      return null, Some(Conflicts);
    }
    if IsEmptyGrid(grid.m) {
      return null, Some(EmptyGrid);
    }
    return grid, None;
  }

  /** The parse succeeds exactly on nine rows of nine digits and dots holding at least 17 clues, no two equal
      digits in a row, a column or a box. */
  lemma VerdictAccepts(args: seq<string>)
    ensures Verdict(args).None? <==>
      WellShaped(args) && |Clues(GridOf(args))| >= MinClues && ConflictFree(GridOf(args))
  {
    if WellShaped(args) {
      ValidatesIffConflictFree(GridOf(args));
    }
  }

  /** Row i is the one reported exactly when the rows before it pass and it does not; the error is then
      that row's own verdict. */
  lemma RowReported(args: seq<string>, i: int)
    requires |args| == 10 && 1 <= i <= 9
    ensures Verdict(args) == Some(RowLength(i)) || Verdict(args) == Some(BadCharacter(i)) <==>
      (forall k | 1 <= k < i :: RowOk(args, k)) && !RowOk(args, i)
    ensures (forall k | 1 <= k < i :: RowOk(args, k)) && !RowOk(args, i) ==> Verdict(args) == RowCheck(args[i], i)
  {
    if FirstRowError(args, 1).Some? {
      var k := FirstRowErrorIs(args, 1);
      assert !RowOk(args, k);
    }
  }

  /** Rows are checked in order, and a row's length before its characters: row i is reported exactly when
      the rows before it pass, and the error says which of its checks failed. */
  lemma RowErrorsInOrder(args: seq<string>, i: int)
    requires |args| == 10 && 1 <= i <= 9
    ensures Verdict(args) == Some(RowLength(i)) <==>
      (forall k | 1 <= k < i :: RowOk(args, k)) && |args[i]| != 9
    ensures Verdict(args) == Some(BadCharacter(i)) <==>
      (forall k | 1 <= k < i :: RowOk(args, k)) && |args[i]| == 9 && exists j | 0 <= j < 9 :: !Allowed(args[i][j])
  {
    RowReported(args, i);
  }

  /** A wrong number of arguments is reported first, with the number of rows given. */
  lemma RowCountFirst(args: seq<string>)
    ensures Verdict(args).Some? && Verdict(args).value.WrongRowCount? <==> |args| != 10
    ensures |args| != 10 ==> Verdict(args) == Some(WrongRowCount(|args| - 1))
  {
  }

  /** Too few clues is reported only for well-shaped rows, with the number of clues they hold. */
  lemma TooFewCluesCount(args: seq<string>)
    ensures Verdict(args).Some? && Verdict(args).value.TooFewClues? <==>
      WellShaped(args) && |Clues(GridOf(args))| < MinClues
    ensures Verdict(args).Some? && Verdict(args).value.TooFewClues? ==>
      Verdict(args).value.count == |Clues(GridOf(args))|
  {
    if |args| == 10 && FirstRowError(args, 1).Some? {
      var k := FirstRowErrorIs(args, 1);
    }
  }

  /** The empty-grid error can never be reported: an empty grid has no clue, so the clue count refuses it
      first. */
  lemma EmptyGridUnreachable(args: seq<string>)
    ensures Verdict(args) != Some(EmptyGrid)
  {
    if WellShaped(args) && |Clues(GridOf(args))| >= MinClues {
      assert !IsEmptyGrid(GridOf(args));
    }
  }
}
