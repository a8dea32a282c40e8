/** Cells, units and grids shared by the input validator and the solver.

    A grid is a map from cell positions to runes: '1'..'9' for a digit, '.' for a blank.
    Rows A..I are rows 0..8 and columns 1..9 are columns 0..8. */
module Grid {

  datatype Option<T> = None | Some(value: T)

  /** A cell position: row 0..8 stands for the letters A..I, column 0..8 for the digits 1..9. */
  datatype Pos = Pos(row: int, col: int)

  predicate OnBoard(p: Pos) {
    0 <= p.row < 9 && 0 <= p.col < 9
  }

  /** Position of a cell in the A1, A2, ..., A9, B1, ..., I9 scan order. */
  function Index(p: Pos): int {
    p.row * 9 + p.col
  }

  function CellAt(k: int): (p: Pos)
    requires 0 <= k < 81
    ensures OnBoard(p) && Index(p) == k
  {
    Pos(k / 9, k % 9)
  }

  lemma CellAtIndex(p: Pos)
    requires OnBoard(p)
    ensures Index(p) < 81 && CellAt(Index(p)) == p
  {
  }

  /** The 81 cells of the board. */
  function AllCells(): (cells: set<Pos>)
    ensures forall p :: p in cells <==> OnBoard(p)
  {
    var cells := set k | 0 <= k < 81 :: CellAt(k);
    assert forall p | OnBoard(p) :: CellAt(Index(p)) == p;
    cells
  }

  /** The map key the source uses for a cell: the row letter followed by the column digit, like "A1". */
  function Name(p: Pos): (key: string)
    requires OnBoard(p)
    ensures |key| == 2 && 'A' <= key[0] <= 'I' && '1' <= key[1] <= '9'
    ensures PosOf(key) == p
  {
    [('A' as int + p.row) as char, ('1' as int + p.col) as char]
  }

  /** Reads a key back as a position, taking its first rune as the row and its second as the column. */
  function PosOf(key: string): Pos
    requires |key| >= 2
  {
    Pos(key[0] as int - 'A' as int, key[1] as int - '1' as int)
  }

  /** Every key of a row letter A..I and a column digit 1..9 names exactly one cell of the board. */
  lemma KeyRoundTrip(key: string)
    requires |key| == 2 && 'A' <= key[0] <= 'I' && '1' <= key[1] <= '9'
    ensures OnBoard(PosOf(key)) && Name(PosOf(key)) == key
  {
    var n := Name(PosOf(key));
    assert n[0] == key[0] && n[1] == key[1];
  }

  /** The box of a cell, identified by its top-left cell (the source's subgrid key "A1", "A4", ..., "G7"). */
  function Corner(p: Pos): (k: Pos)
    ensures OnBoard(p) ==> OnBoard(k) && k.row % 3 == 0 && k.col % 3 == 0
    ensures OnBoard(p) ==> k.row <= p.row < k.row + 3 && k.col <= p.col < k.col + 3
  {
    Pos(p.row / 3 * 3, p.col / 3 * 3)
  }

  /** The top-left cells of the nine boxes. */
  function BoxCorners(): set<Pos> {
    {Pos(0, 0), Pos(0, 3), Pos(0, 6), Pos(3, 0), Pos(3, 3), Pos(3, 6), Pos(6, 0), Pos(6, 3), Pos(6, 6)}
  }

  /** A cell's corner is one of the nine, and each of the nine is its own corner. */
  lemma CornerIsBoxCorner(p: Pos)
    requires OnBoard(p)
    ensures Corner(p) in BoxCorners()
    ensures p in BoxCorners() ==> Corner(p) == p
  {
    assert 0 <= p.row / 3 < 3 && 0 <= p.col / 3 < 3;
  }

  /** The box number used in the usual formulation, (row / 3) * 3 + col / 3. */
  function BoxNumber(p: Pos): int {
    (p.row / 3) * 3 + p.col / 3
  }

  /** Two cells share a box exactly when their rows agree after division by three, and their columns do too;
      the corner key and the box number are two names for the same partition. */
  lemma SameBox(p: Pos, q: Pos)
    requires OnBoard(p) && OnBoard(q)
    ensures Corner(p) == Corner(q) <==> p.row / 3 == q.row / 3 && p.col / 3 == q.col / 3
    ensures Corner(p) == Corner(q) <==> BoxNumber(p) == BoxNumber(q)
  {
  }

  /** The three kinds of unit: a row, a column and a 3x3 box (named by its corner). */
  datatype Unit = Row(r: int) | Column(c: int) | Box(corner: Pos)

  predicate InUnit(u: Unit, p: Pos) {
    match u
    case Row(r) => p.row == r
    case Column(c) => p.col == c
    case Box(k) => Corner(p) == k
  }

  /** Distinct cells that share a row, a column or a box. */
  predicate Peers(p: Pos, q: Pos) {
    p != q && (p.row == q.row || p.col == q.col || Corner(p) == Corner(q))
  }

  const Blank: char := '.'

  predicate IsDigit(ch: char) {
    '1' <= ch <= '9'
  }

  type Grid = map<Pos, char>

  /** Exactly the 81 cells, each a digit or a blank. */
  predicate WellFormed(g: Grid) {
    g.Keys == AllCells() && forall p :: p in g ==> g[p] == Blank || IsDigit(g[p])
  }

  /** The digits currently placed in a unit. */
  function UnitDigits(g: Grid, u: Unit): set<char> {
    set p | p in g && InUnit(u, p) && g[p] != Blank :: g[p]
  }

  function Blanks(g: Grid): set<Pos> {
    set p | p in g && g[p] == Blank
  }

  function Clues(g: Grid): set<Pos> {
    set p | p in g && g[p] != Blank
  }

  /** No digit appears twice in a row, a column or a box. */
  predicate ConflictFree(g: Grid) {
    forall p, q :: p in g && q in g && Peers(p, q) && g[p] != Blank ==> g[p] != g[q]
  }

  /** h has the cells of g and keeps every digit g holds. */
  predicate Extends(h: Grid, g: Grid) {
    h.Keys == g.Keys && forall p :: p in g && g[p] != Blank ==> h[p] == g[p]
  }

  /** h fills every blank of g with a digit and obeys the rules. */
  predicate IsCompletion(g: Grid, h: Grid) {
    WellFormed(h) && Extends(h, g) && Blanks(h) == {} && ConflictFree(h)
  }

  ghost predicate UniqueCompletion(g: Grid) {
    exists h :: IsCompletion(g, h) && forall h' :: IsCompletion(g, h') ==> h' == h
  }

  ghost predicate HasCompletion(g: Grid) {
    exists h :: IsCompletion(g, h)
  }

  /** Writing a digit into a blank adds that digit to the cell's three units and to no other unit. */
  lemma PlaceDigit(g: Grid, p: Pos, d: char)
    requires p in g && g[p] == Blank && d != Blank
    ensures forall u :: UnitDigits(g[p := d], u) == if InUnit(u, p) then UnitDigits(g, u) + {d} else UnitDigits(g, u)
  {
    forall u
      ensures UnitDigits(g[p := d], u) == if InUnit(u, p) then UnitDigits(g, u) + {d} else UnitDigits(g, u)
    {
      var g' := g[p := d];
      forall x | x in UnitDigits(g', u)
        ensures x in (if InUnit(u, p) then UnitDigits(g, u) + {d} else UnitDigits(g, u))
      {
        var q :| q in g' && InUnit(u, q) && g'[q] != Blank && g'[q] == x;
        if q != p {
          assert x in UnitDigits(g, u);
        }
      }
      if InUnit(u, p) {
        assert d in UnitDigits(g', u) by { assert g'[p] == d; }
      }
      forall x | x in UnitDigits(g, u) ensures x in UnitDigits(g', u) {
        var q :| q in g && InUnit(u, q) && g[q] != Blank && g[q] == x;
        assert q != p && g'[q] == x;
      }
    }
  }

  /** Blanking a digit that no other cell of its units holds removes it from those units and from no other. */
  lemma ClearDigit(g: Grid, p: Pos)
    requires p in g && g[p] != Blank
    requires forall q :: q in g && Peers(p, q) ==> g[q] != g[p]
    ensures forall u :: UnitDigits(g[p := Blank], u) == if InUnit(u, p) then UnitDigits(g, u) - {g[p]} else UnitDigits(g, u)
  {
    forall u
      ensures UnitDigits(g[p := Blank], u) == if InUnit(u, p) then UnitDigits(g, u) - {g[p]} else UnitDigits(g, u)
    {
      var g' := g[p := Blank];
      forall x | x in UnitDigits(g', u)
        ensures x in (if InUnit(u, p) then UnitDigits(g, u) - {g[p]} else UnitDigits(g, u))
      {
        var q :| q in g' && InUnit(u, q) && g'[q] != Blank && g'[q] == x;
        assert q != p && x in UnitDigits(g, u);
        if InUnit(u, p) {
          assert Peers(p, q) by {
            match u
            case Row(r) =>
            case Column(c) =>
            case Box(k) =>
          }
        }
      }
      forall x | x in UnitDigits(g, u) && (InUnit(u, p) ==> x != g[p]) ensures x in UnitDigits(g', u) {
        var q :| q in g && InUnit(u, q) && g[q] != Blank && g[q] == x;
        assert q != p;
        assert g'[q] == x;
      }
    }
  }

  /** A cell keeps or loses blanks only where it already had them: an extension has no more blanks. */
  lemma ExtendsBlanks(h: Grid, g: Grid)
    requires Extends(h, g)
    ensures Blanks(h) <= Blanks(g)
    ensures |Blanks(h)| <= |Blanks(g)|
  {
    SubsetCard(Blanks(h), Blanks(g));
  }

  lemma SubsetCard<T>(a: set<T>, b: set<T>)
    requires a <= b
    ensures |a| <= |b|
  {
    assert b == a + (b - a);
  }

  /** Filling a blank of an extension of g leaves strictly fewer blanks than g has. */
  lemma FillShrinks(g: Grid, h: Grid, p: Pos, d: char)
    requires Extends(h, g) && p in h && h[p] == Blank && d != Blank
    ensures Blanks(h[p := d]) == Blanks(h) - {p}
    ensures |Blanks(h[p := d])| < |Blanks(g)|
  {
    assert Blanks(h[p := d]) == Blanks(h) - {p};
    ExtendsBlanks(h, g);
    assert p in Blanks(h);
    SubsetCard(Blanks(h) - {p}, Blanks(g) - {p});
  }

  /** A Go map is a reference: whoever holds it sees the writes made through any other holder. */
  class GridMap {
    var m: Grid

    constructor (m0: Grid)
      ensures m == m0
    {
      m := m0;
    }
  }
}
