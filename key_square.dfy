/** The 5x5 Playfair key square shared by the C++ tool and its C# port: the
    square's letters, the grid filled row by row, the search for a letter's
    cell, and the digraph rules for enciphering and deciphering. The two
    programs contain the same grid, search and rule code. */
module KeySquare {
  import opened Wrappers
  import opened Text
  import opened Arith

  /** The alphabet the square is completed from, spelled as in the source:
      R comes before Q. */
  const SAlpha: string := "ABCDEFGHIJKLMNOPRQSTUVWXYZ"

  /** The square's letters: the shortened key, then every letter of SAlpha
      that is neither in the key nor the omitted letter. */
  function Square(skey: string, omit: char): string
  {
    skey + Except(SAlpha, skey + [omit])
  }

  /** The position in A..Z of SAlpha's letter i: Q and R trade places. */
  function SAlphaRank(i: int): int
  {
    if i == 16 then 17 else if i == 17 then 16 else i
  }

  /** SAlpha's letters by position: Q and R traded, the rest in order. */
  lemma SAlphaAt()
    ensures |SAlpha| == 26
    ensures forall i :: 0 <= i < 26 ==> SAlpha[i] as int == 'A' as int + SAlphaRank(i)
  {
    assert SAlpha == seq(26, i requires 0 <= i < 26 => ('A' as int + SAlphaRank(i)) as char);
  }

  lemma SAlphaDistinct()
    ensures Distinct(SAlpha) && |set x | x in SAlpha| == 26
  {
    assert SAlpha == seq(26, i requires 0 <= i < 26 => ('A' as int + SAlphaRank(i)) as char);
    DistinctCard(SAlpha);
  }

  /** Except on a list without repeats keeps exactly the elements outside drop. */
  lemma ExceptCard<T(!new)>(s: seq<T>, drop: seq<T>)
    requires Distinct(s)
    ensures |Except(s, drop)| == |(set x | x in s) - (set x | x in drop)|
  {
    ExceptDistinct(s, drop);
    DistinctCard(Except(s, drop));
    assert (set x | x in Except(s, drop)) == (set x | x in s) - (set x | x in drop);
  }

  lemma SubsetCard<T>(a: set<T>, b: set<T>)
    requires a <= b
    ensures |a| <= |b|
  {
    assert b == a + (b - a);
  }

  /** A key without repeats gives a square of at least 25 distinct letters. */
  lemma SquareFacts(skey: string, omit: char)
    requires Distinct(skey)
    ensures Distinct(Square(skey, omit)) && |Square(skey, omit)| >= 25
  {
    SquareLength(skey, omit);
    SquareDistinct(skey, omit);
  }

  /** The letters the key leaves fill the grid up to at least 25 cells. */
  lemma SquareLength(skey: string, omit: char)
    requires Distinct(skey)
    ensures |Except(SAlpha, skey + [omit])| >= 25 - |skey|
  {
    var drop := skey + [omit];
    SAlphaDistinct();
    ExceptCard(SAlpha, drop);
    var A, D, K := set x | x in SAlpha, set x | x in drop, set x | x in skey;
    DifferenceCard(A, D);
    SubsetCard(A * D, D);
    DistinctCard(skey);
    assert D == K + {omit};
    assert |D| <= |K| + 1;
  }

  /** What a set loses to another is what they share. */
  lemma DifferenceCard<T>(a: set<T>, b: set<T>)
    ensures |a - b| == |a| - |a * b|
  {
    assert a == (a - b) + (a * b);
    assert (a - b) * (a * b) == {};
  }

  lemma SquareDistinct(skey: string, omit: char)
    requires Distinct(skey)
    ensures Distinct(skey + Except(SAlpha, skey + [omit]))
  {
    var rest := Except(SAlpha, skey + [omit]);
    SAlphaDistinct();
    ExceptDistinct(SAlpha, skey + [omit]);
    forall i, j | 0 <= i < j < |skey + rest|
      ensures (skey + rest)[i] != (skey + rest)[j]
    {
      if i < |skey| && j >= |skey| {
        assert (skey + rest)[j] in rest;
      }
    }
  }

  /** A row and column of the grid. */
  datatype Cell = Cell(row: int, col: int)

  predicate InGrid(c: Cell) { 0 <= c.row < 5 && 0 <= c.col < 5 }

  /** The cell of an index of the row-major fill. */
  function CellOf(j: int): (c: Cell)
    requires 0 <= j < 25
    ensures InGrid(c) && 5 * c.row + c.col == j
  {
    Cell(j / 5, j % 5)
  }

  function IndexOfCell(c: Cell): (j: int)
    requires InGrid(c)
    ensures 0 <= j < 25 && CellOf(j) == c
  {
    5 * c.row + c.col
  }

  /** The cell the search settles on: the last cell holding ch, if any. */
  function Locate(g: seq<char>, ch: char): (r: Option<Cell>)
    requires |g| == 25
    ensures r.None? <==> ch !in g
    ensures r.Some? ==> InGrid(r.value) && g[IndexOfCell(r.value)] == ch
  {
    LocateIn(g, ch)
  }

  /** The search over the first |g| cells of the row-major fill. */
  function LocateIn(g: seq<char>, ch: char): Option<Cell>
    requires |g| <= 25
  {
    var j := LastIndexOf(g, ch);
    if j < 0 then None else Some(CellOf(j))
  }

  /** Searching one more cell: a match there replaces the earlier result. */
  lemma LocateInSnoc(g: seq<char>, k: int, ch: char)
    requires 0 <= k < |g| <= 25
    ensures LocateIn(g[..k + 1], ch) == if g[k] == ch then Some(CellOf(k)) else LocateIn(g[..k], ch)
  {
    assert g[..k + 1][..k] == g[..k];
  }

  function WrapHigh(c: Cell): Cell
  {
    Cell(if c.row > 4 then 0 else c.row, if c.col > 4 then 0 else c.col)
  }

  function WrapLow(c: Cell): Cell
  {
    Cell(if c.row < 0 then 4 else c.row, if c.col < 0 then 4 else c.col)
  }

  /** The enciphering rules: different row and column exchange columns; the
      same column moves both down a row; the same row moves both right a
      column; the same cell also moves down. Coordinates past 4 wrap to 0. */
  function EncryptCells(a: Cell, b: Cell): (r: (Cell, Cell))
    requires InGrid(a) && InGrid(b)
    ensures InGrid(r.0) && InGrid(r.1)
  {
    if a.row != b.row && a.col != b.col then (Cell(a.row, b.col), Cell(b.row, a.col))
    else if a.row != b.row && a.col == b.col then
      (WrapHigh(Cell(a.row + 1, a.col)), WrapHigh(Cell(b.row + 1, b.col)))
    else if a.row == b.row && a.col != b.col then
      (WrapHigh(Cell(a.row, a.col + 1)), WrapHigh(Cell(b.row, b.col + 1)))
    else (WrapHigh(Cell(a.row + 1, a.col)), WrapHigh(Cell(b.row + 1, b.col)))
  }

  /** The deciphering rules: the same case split with the moves reversed;
      coordinates below 0 wrap to 4. */
  function DecryptCells(a: Cell, b: Cell): (r: (Cell, Cell))
    requires InGrid(a) && InGrid(b)
    ensures InGrid(r.0) && InGrid(r.1)
  {
    if a.row != b.row && a.col != b.col then (Cell(a.row, b.col), Cell(b.row, a.col))
    else if a.row != b.row && a.col == b.col then
      (WrapLow(Cell(a.row - 1, a.col)), WrapLow(Cell(b.row - 1, b.col)))
    else if a.row == b.row && a.col != b.col then
      (WrapLow(Cell(a.row, a.col - 1)), WrapLow(Cell(b.row, b.col - 1)))
    else (WrapLow(Cell(a.row - 1, a.col)), WrapLow(Cell(b.row - 1, b.col)))
  }

  /** The deciphering rules undo the enciphering rules, and the other way round. */
  lemma CellsInverse(a: Cell, b: Cell)
    requires InGrid(a) && InGrid(b)
    ensures var e := EncryptCells(a, b); DecryptCells(e.0, e.1) == (a, b)
    ensures var d := DecryptCells(a, b); EncryptCells(d.0, d.1) == (a, b)
  {
    EncryptThenDecrypt(a, b);
    DecryptThenEncrypt(a, b);
  }

  lemma EncryptThenDecrypt(a: Cell, b: Cell)
    requires InGrid(a) && InGrid(b)
    ensures var e := EncryptCells(a, b); DecryptCells(e.0, e.1) == (a, b)
  {
    var e := EncryptCells(a, b);
    if a.row != b.row && a.col != b.col {
      assert e == (Cell(a.row, b.col), Cell(b.row, a.col));
    } else if a.row != b.row {
      assert e.0.col == e.1.col && e.0.row != e.1.row;
      assert WrapLow(Cell(e.0.row - 1, e.0.col)) == a;
    } else if a.col != b.col {
      assert e.0.row == e.1.row && e.0.col != e.1.col;
      assert WrapLow(Cell(e.0.row, e.0.col - 1)) == a;
    } else {
      assert e.0 == e.1;
    }
  }

  lemma DecryptThenEncrypt(a: Cell, b: Cell)
    requires InGrid(a) && InGrid(b)
    ensures var d := DecryptCells(a, b); EncryptCells(d.0, d.1) == (a, b)
  {
    var d := DecryptCells(a, b);
    if a.row != b.row && a.col != b.col {
      assert d == (Cell(a.row, b.col), Cell(b.row, a.col));
    } else if a.row != b.row {
      assert d.0.col == d.1.col && d.0.row != d.1.row;
      assert WrapHigh(Cell(d.0.row + 1, d.0.col)) == a;
    } else if a.col != b.col {
      assert d.0.row == d.1.row && d.0.col != d.1.col;
      assert WrapHigh(Cell(d.0.row, d.0.col + 1)) == a;
    } else {
      assert d.0 == d.1;
    }
  }

  /** The grid's letters in row-major order. */
  ghost function Contents(grid: array2<char>): (g: seq<char>)
    reads grid
    requires grid.Length0 == 5 && grid.Length1 == 5
    ensures |g| == 25
  {
    seq(25, j requires 0 <= j < 25 reads grid => grid[j / 5, j % 5])
  }

  /** Fill the 5x5 grid from the first 25 letters of skey: the column counter
      runs to 4, then the row counter advances. */
  method FillGrid(skey: string) returns (grid: array2<char>)
    requires |skey| >= 25
    ensures fresh(grid) && grid.Length0 == 5 && grid.Length1 == 5
    ensures Contents(grid) == skey[..25]
  {
    grid := new char[5, 5];
    var col := 0;
    var row := 0;
    for i := 0 to 25
      invariant 5 * row + col == i
      invariant 0 <= row <= 5 && 0 <= col <= 5 && (i > 0 ==> col >= 1) && (row == 5 ==> col == 0)
      invariant forall j :: 0 <= j < i ==> grid[j / 5, j % 5] == skey[j]
    {
      if col > 4 {
        row := row + 1;
        col := 0;
      }
      grid[row, col] := skey[i];
      col := col + 1;
    }
  }

  /** Find the cells of the two letters of a digraph: every cell is compared
      with both, and the last match wins; a letter matching no cell leaves
      its cell unset (None). */
  method LocatePair(grid: array2<char>, x: char, y: char) returns (c1: Option<Cell>, c2: Option<Cell>)
    requires grid.Length0 == 5 && grid.Length1 == 5
    ensures c1 == Locate(Contents(grid), x) && c2 == Locate(Contents(grid), y)
  {
    ghost var g := Contents(grid);
    c1, c2 := None, None;
    var col := 0;
    var row := 0;
    for check := 0 to 25
      invariant 5 * row + col == check
      invariant 0 <= row <= 5 && 0 <= col <= 5 && (check > 0 ==> col >= 1) && (row == 5 ==> col == 0)
      invariant c1 == LocateIn(g[..check], x) && c2 == LocateIn(g[..check], y)
    {
      if col > 4 {
        row := row + 1;
        col := 0;
      }
      c1, c2 := Probe(grid, x, y, row, col, c1, c2);
      col := col + 1;
    }
    assert g[..25] == g;
  }

  /** The body of the search loop at one cell: a letter found there takes
      that cell. */
  method Probe(grid: array2<char>, x: char, y: char, row: int, col: int, c1: Option<Cell>, c2: Option<Cell>)
    returns (d1: Option<Cell>, d2: Option<Cell>)
    requires grid.Length0 == 5 && grid.Length1 == 5 && 0 <= row < 5 && 0 <= col < 5
    requires var g, k := Contents(grid), 5 * row + col; c1 == LocateIn(g[..k], x) && c2 == LocateIn(g[..k], y)
    ensures var g, k := Contents(grid), 5 * row + col; d1 == LocateIn(g[..k + 1], x) && d2 == LocateIn(g[..k + 1], y)
  {
    ghost var g, k := Contents(grid), 5 * row + col;
    LocateInSnoc(g, k, x);
    LocateInSnoc(g, k, y);
    assert CellOf(IndexOfCell(Cell(row, col))) == Cell(row, col);
    assert g[k] == grid[row, col];
    d1, d2 := c1, c2;
    if x == grid[row, col] {
      d1 := Some(Cell(row, col));
    }
    if y == grid[row, col] {
      d2 := Some(Cell(row, col));
    }
  }

  /** One digraph through the square. A letter outside the grid takes the
      fallback cell when there is one and makes the digraph fail otherwise. */
  function PairOut(g: seq<char>, x: char, y: char, forward: bool, fallback: Option<Cell>): Option<(char, char)>
    requires |g| == 25 && (fallback.Some? ==> InGrid(fallback.value))
  {
    var a := if x in g then Locate(g, x) else fallback;
    var b := if y in g then Locate(g, y) else fallback;
    if a.None? || b.None? then None
    else
      var r := if forward then EncryptCells(a.value, b.value) else DecryptCells(a.value, b.value);
      Some((g[IndexOfCell(r.0)], g[IndexOfCell(r.1)]))
  }

  /** Without a fallback, a digraph is placed exactly when both letters are
      found, and goes to the cells the rule gives. */
  lemma PairOutLocated(g: seq<char>, x: char, y: char, forward: bool)
    requires |g| == 25
    ensures Locate(g, x).None? || Locate(g, y).None? ==> PairOut(g, x, y, forward, None).None?
    ensures Locate(g, x).Some? && Locate(g, y).Some? ==>
      var r := if forward then EncryptCells(Locate(g, x).value, Locate(g, y).value)
               else DecryptCells(Locate(g, x).value, Locate(g, y).value);
      PairOut(g, x, y, forward, None) == Some((g[IndexOfCell(r.0)], g[IndexOfCell(r.1)]))
  {
  }

  /** A result so far followed by one more digraph: a failure stays, a
      digraph that could not be placed fails. */
  function Extend(front: Result<string>, p: Option<(char, char)>): Result<string>
  {
    if front.Failure? then front
    else if p.None? then Failure(UndefinedBehaviour)
    else Success(front.value + [p.value.0, p.value.1])
  }

  /** The first n digraphs of a text, each through step, in order. */
  function Digraphs(step: (char, char) -> Option<(char, char)>, text: string, n: nat): (r: Result<string>)
    requires 2 * n <= |text|
    ensures r.Success? ==> |r.value| == 2 * n
    ensures r.Failure? ==> r.error == UndefinedBehaviour
  {
    if n == 0 then Success([])
    else Extend(Digraphs(step, text, n - 1), step(text[2 * n - 2], text[2 * n - 1]))
  }

  /** The first n digraphs depend on the first 2n letters only. */
  lemma {:induction false} DigraphsPrefix(step: (char, char) -> Option<(char, char)>, t1: string, t2: string, n: nat)
    requires 2 * n <= |t1| && 2 * n <= |t2| && t1[..2 * n] == t2[..2 * n]
    ensures Digraphs(step, t1, n) == Digraphs(step, t2, n)
  {
    if n > 0 {
      assert t1[..2 * n - 2] == t1[..2 * n][..2 * n - 2];
      assert t2[..2 * n - 2] == t2[..2 * n][..2 * n - 2];
      assert t1[2 * n - 2] == t1[..2 * n][2 * n - 2] && t1[2 * n - 1] == t1[..2 * n][2 * n - 1];
      assert t2[2 * n - 2] == t2[..2 * n][2 * n - 2] && t2[2 * n - 1] == t2[..2 * n][2 * n - 1];
      DigraphsPrefix(step, t1, t2, n - 1);
    }
  }

  /** Once a digraph fails, every longer run fails the same way. */
  lemma {:induction false} DigraphsFail(step: (char, char) -> Option<(char, char)>, text: string, m: nat, n: nat)
    requires m <= n && 2 * n <= |text| && Digraphs(step, text, m).Failure?
    ensures Digraphs(step, text, n) == Digraphs(step, text, m)
    decreases n
  {
    if m < n {
      DigraphsFail(step, text, m, n - 1);
    }
  }

  /** When step maps pairs of letters of a set into the set and back undoes
      it there, the first n digraphs of such letters go through, stay in the
      set and come back. */
  lemma {:induction false} DigraphsRoundTrip(step: (char, char) -> Option<(char, char)>, back: (char, char) -> Option<(char, char)>,
                                             letters: set<char>, text: string, n: nat)
    requires 2 * n <= |text|
    requires forall k :: 0 <= k < 2 * n ==> text[k] in letters
    requires forall x, y {:trigger step(x, y)} :: x in letters && y in letters ==>
      step(x, y).Some? && step(x, y).value.0 in letters && step(x, y).value.1 in letters &&
      back(step(x, y).value.0, step(x, y).value.1) == Some((x, y))
    ensures Digraphs(step, text, n).Success?
    ensures forall k :: 0 <= k < 2 * n ==> Digraphs(step, text, n).value[k] in letters
    ensures Digraphs(back, Digraphs(step, text, n).value, n) == Success(text[..2 * n])
  {
    if n > 0 {
      DigraphsRoundTrip(step, back, letters, text, n - 1);
      var x, y := text[2 * n - 2], text[2 * n - 1];
      var cf := Digraphs(step, text, n - 1).value;
      var p := step(x, y).value;
      var c := cf + [p.0, p.1];
      assert Digraphs(step, text, n) == Success(c);
      assert c[..2 * n - 2] == cf[..2 * n - 2];
      DigraphsPrefix(back, c, cf, n - 1);
      assert c[2 * n - 2] == p.0 && c[2 * n - 1] == p.1;
      assert text[..2 * n] == text[..2 * n - 2] + [x, y];
    }
  }

  /** When step only succeeds on pairs of letters of a set, the first n
      digraphs go through only if their letters are all in the set. */
  lemma {:induction false} DigraphsSucceedIn(step: (char, char) -> Option<(char, char)>, letters: set<char>, text: string, n: nat)
    requires 2 * n <= |text| && Digraphs(step, text, n).Success?
    requires forall x, y :: step(x, y).Some? ==> x in letters && y in letters
    ensures forall k :: 0 <= k < 2 * n ==> text[k] in letters
  {
    if n > 0 {
      DigraphsSucceedIn(step, letters, text, n - 1);
      assert step(text[2 * n - 2], text[2 * n - 1]).Some?;
    }
  }

  /** One digraph through the square, as a step. */
  function PairStep(g: seq<char>, forward: bool, fallback: Option<Cell>): (char, char) -> Option<(char, char)>
    requires |g| == 25 && (fallback.Some? ==> InGrid(fallback.value))
  {
    (x: char, y: char) => PairOut(g, x, y, forward, fallback)
  }

  /** Applying the step is taking one digraph through the square. */
  lemma PairStepAt(g: seq<char>, forward: bool, fallback: Option<Cell>, x: char, y: char)
    requires |g| == 25 && (fallback.Some? ==> InGrid(fallback.value))
    ensures PairStep(g, forward, fallback)(x, y) == PairOut(g, x, y, forward, fallback)
  {
  }

  /** The first i + 1 digraphs are the first i followed by digraph i. */
  lemma DigraphsNext(step: (char, char) -> Option<(char, char)>, text: string, i: nat)
    requires 2 * i + 2 <= |text|
    ensures Digraphs(step, text, i + 1) == Extend(Digraphs(step, text, i), step(text[2 * i], text[2 * i + 1]))
  {
    assert 2 * (i + 1) - 2 == 2 * i && 2 * (i + 1) - 1 == 2 * i + 1;
  }

  /** A text whose first n digraphs each go through step to the matching
      two letters of o has o as the result of its first n digraphs. */
  lemma {:induction false} DigraphsFrom(step: (char, char) -> Option<(char, char)>, text: string, o: string, n: nat)
    requires 2 * n <= |text| && |o| == 2 * n
    requires forall j :: 0 <= j < n ==> step(text[2 * j], text[2 * j + 1]) == Some((o[2 * j], o[2 * j + 1]))
    ensures Digraphs(step, text, n) == Success(o)
  {
    if n > 0 {
      var o' := o[..2 * n - 2];
      forall j | 0 <= j < n - 1
        ensures step(text[2 * j], text[2 * j + 1]) == Some((o'[2 * j], o'[2 * j + 1]))
      {
        assert o'[2 * j] == o[2 * j] && o'[2 * j + 1] == o[2 * j + 1];
      }
      DigraphsFrom(step, text, o', n - 1);
      assert step(text[2 * n - 2], text[2 * n - 1]) == Some((o[2 * n - 2], o[2 * n - 1]));
      assert o == o' + [o[2 * n - 2], o[2 * n - 1]];
    }
  }

  /** A text with a digraph among its first n that step cannot place has
      no result for its first n digraphs. */
  lemma {:induction false} DigraphsStuck(step: (char, char) -> Option<(char, char)>, text: string, j: nat, n: nat)
    requires j < n && 2 * n <= |text| && step(text[2 * j], text[2 * j + 1]).None?
    ensures Digraphs(step, text, n) == Failure(UndefinedBehaviour)
    decreases n
  {
    if j < n - 1 {
      DigraphsStuck(step, text, j, n - 1);
    } else {
      assert 2 * n - 2 == 2 * j;
    }
  }

  /** A text of even length through the square, digraph by digraph. */
  function Crypt(g: seq<char>, text: string, forward: bool, fallback: Option<Cell>): (r: Result<string>)
    requires |g| == 25 && |text| % 2 == 0 && (fallback.Some? ==> InGrid(fallback.value))
    ensures r.Success? ==> |r.value| == |text|
  {
    DivMod(|text|, 2);
    Digraphs(PairStep(g, forward, fallback), text, |text| / 2)
  }

  /** A text of one digraph goes through the square as that digraph does. */
  lemma CryptOnePair(g: seq<char>, x: char, y: char, forward: bool, fallback: Option<Cell>)
    requires |g| == 25 && (fallback.Some? ==> InGrid(fallback.value))
    ensures var p := PairOut(g, x, y, forward, fallback);
      Crypt(g, [x, y], forward, fallback) == if p.None? then Failure(UndefinedBehaviour) else Success([p.value.0, p.value.1])
  {
    var t := [x, y];
    DivMod(|t|, 2);
    assert |t| / 2 == 1;
    var step := PairStep(g, forward, fallback);
    PairStepAt(g, forward, fallback, x, y);
    assert Digraphs(step, t, 1) == Extend(Digraphs(step, t, 0), step(t[0], t[1]));
    var p := PairOut(g, x, y, forward, fallback);
    if p.Some? {
      assert [] + [p.value.0, p.value.1] == [p.value.0, p.value.1];
    }
  }

  /** A step that places every pair takes any text through. */
  lemma {:induction false} DigraphsTotal(step: (char, char) -> Option<(char, char)>, text: string, n: nat)
    requires 2 * n <= |text|
    requires forall x, y {:trigger step(x, y)} :: step(x, y).Some?
    ensures Digraphs(step, text, n).Success?
  {
    if n > 0 {
      DigraphsTotal(step, text, n - 1);
    }
  }

  /** With a fallback cell every letter has a cell, so every text of even
      length goes through the square. */
  lemma CryptTotal(g: seq<char>, text: string, forward: bool, fallback: Cell)
    requires |g| == 25 && |text| % 2 == 0 && InGrid(fallback)
    ensures Crypt(g, text, forward, Some(fallback)).Success?
  {
    var step := PairStep(g, forward, Some(fallback));
    forall x, y
      ensures step(x, y).Some?
    {
      PairStepAt(g, forward, Some(fallback), x, y);
    }
    DivMod(|text|, 2);
    DigraphsTotal(step, text, |text| / 2);
  }

  /** A digraph whose letters sit in cells a and b goes to the letters of
      the cells the rules give. */
  lemma PairOutCells(g: seq<char>, x: char, y: char, forward: bool, fallback: Option<Cell>, a: Cell, b: Cell)
    requires |g| == 25 && (fallback.Some? ==> InGrid(fallback.value))
    requires Locate(g, x) == Some(a) && Locate(g, y) == Some(b)
    ensures var r := if forward then EncryptCells(a, b) else DecryptCells(a, b);
      PairOut(g, x, y, forward, fallback) == Some((g[IndexOfCell(r.0)], g[IndexOfCell(r.1)]))
  {
  }

  /** In a square without repeated letters, the search finds each cell's letter in that cell. */
  lemma LocateDistinct(g: seq<char>, c: Cell)
    requires |g| == 25 && Distinct(g) && InGrid(c)
    ensures Locate(g, g[IndexOfCell(c)]) == Some(c)
  {
    LastIndexOfDistinct(g, IndexOfCell(c));
  }

  /** A digraph of grid letters goes through the square and back. */
  lemma PairInverse(g: seq<char>, x: char, y: char, fallback: Option<Cell>, forward: bool)
    requires |g| == 25 && Distinct(g) && x in g && y in g
    requires fallback.Some? ==> InGrid(fallback.value)
    ensures PairOut(g, x, y, forward, fallback).Some?
    ensures var p := PairOut(g, x, y, forward, fallback).value;
      p.0 in g && p.1 in g && PairOut(g, p.0, p.1, !forward, fallback) == Some((x, y))
  {
    var a, b := Locate(g, x).value, Locate(g, y).value;
    var e := if forward then EncryptCells(a, b) else DecryptCells(a, b);
    PairOutCells(g, x, y, forward, fallback, a, b);
    LocateDistinct(g, e.0);
    LocateDistinct(g, e.1);
    CellsInverse(a, b);
    PairOutCells(g, g[IndexOfCell(e.0)], g[IndexOfCell(e.1)], !forward, fallback, e.0, e.1);
  }

  /** Deciphering what was enciphered with the same square gives back the
      text, when every letter of the text is in the grid; so does enciphering
      what was deciphered. */
  lemma CryptRoundTrip(g: seq<char>, text: string, fallback: Option<Cell>, forward: bool)
    requires |g| == 25 && Distinct(g) && |text| % 2 == 0
    requires fallback.Some? ==> InGrid(fallback.value)
    requires forall c :: c in text ==> c in g
    ensures Crypt(g, text, forward, fallback).Success?
    ensures forall c :: c in Crypt(g, text, forward, fallback).value ==> c in g
    ensures Crypt(g, Crypt(g, text, forward, fallback).value, !forward, fallback) == Success(text)
  {
    DivMod(|text|, 2);
    var n := |text| / 2;
    var step, back := PairStep(g, forward, fallback), PairStep(g, !forward, fallback);
    var letters := set c | c in g;
    StepInverse(g, fallback, forward, letters);
    DigraphsRoundTrip(step, back, letters, text, n);
    assert text[..2 * n] == text;
    InLetters(Digraphs(step, text, n).value, g, letters);
  }

  /** The square's step and the step the other way undo each other on the
      grid's letters. */
  lemma StepInverse(g: seq<char>, fallback: Option<Cell>, forward: bool, letters: set<char>)
    requires |g| == 25 && Distinct(g) && (fallback.Some? ==> InGrid(fallback.value))
    requires letters == set c | c in g
    ensures var step, back := PairStep(g, forward, fallback), PairStep(g, !forward, fallback);
      forall x, y {:trigger step(x, y)} :: x in letters && y in letters ==>
        step(x, y).Some? && step(x, y).value.0 in letters && step(x, y).value.1 in letters &&
        back(step(x, y).value.0, step(x, y).value.1) == Some((x, y))
  {
    var step, back := PairStep(g, forward, fallback), PairStep(g, !forward, fallback);
    forall x, y | x in letters && y in letters
      ensures step(x, y).Some? && step(x, y).value.0 in letters && step(x, y).value.1 in letters &&
        back(step(x, y).value.0, step(x, y).value.1) == Some((x, y))
    {
      PairInverse(g, x, y, fallback, forward);
    }
  }

  lemma InLetters(c: string, g: seq<char>, letters: set<char>)
    requires letters == set ch | ch in g
    requires forall k :: 0 <= k < |c| ==> c[k] in letters
    ensures forall ch :: ch in c ==> ch in g
  {
    forall ch | ch in c
      ensures ch in g
    {
      var k :| 0 <= k < |c| && c[k] == ch;
    }
  }

  /** Without a fallback cell, a text goes through only if all its letters
      are in the grid. */
  lemma CryptSucceedsInGrid(g: seq<char>, text: string, forward: bool)
    requires |g| == 25 && |text| % 2 == 0
    requires Crypt(g, text, forward, None).Success?
    ensures forall c :: c in text ==> c in g
  {
    DivMod(|text|, 2);
    var letters := set c | c in g;
    DigraphsSucceedIn(PairStep(g, forward, None), letters, text, |text| / 2);
  }

  /** A text whose digraphs each go through the square to the matching two
      letters of o goes through the square to o. */
  lemma CryptFrom(g: seq<char>, text: string, o: string, forward: bool, fallback: Option<Cell>)
    requires |g| == 25 && |text| % 2 == 0 && |o| == |text| && (fallback.Some? ==> InGrid(fallback.value))
    requires forall j :: 0 <= j < |text| / 2 ==>
      PairStep(g, forward, fallback)(text[2 * j], text[2 * j + 1]) == Some((o[2 * j], o[2 * j + 1]))
    ensures Crypt(g, text, forward, fallback) == Success(o)
  {
    DivMod(|text|, 2);
    DigraphsFrom(PairStep(g, forward, fallback), text, o, |text| / 2);
  }

  /** Writing digraph i in its two places keeps the digraphs already written. */
  lemma PlaceNext(step: (char, char) -> Option<(char, char)>, text: string, out: string, i: nat, p: (char, char))
    requires |out| == |text| && 2 * i + 2 <= |text|
    requires forall j :: 0 <= j < i ==> step(text[2 * j], text[2 * j + 1]) == Some((out[2 * j], out[2 * j + 1]))
    requires step(text[2 * i], text[2 * i + 1]) == Some(p)
    ensures var o := out[2 * i := p.0][2 * i + 1 := p.1];
      forall j :: 0 <= j < i + 1 ==> step(text[2 * j], text[2 * j + 1]) == Some((o[2 * j], o[2 * j + 1]))
  {
    var o := out[2 * i := p.0][2 * i + 1 := p.1];
    forall j | 0 <= j < i + 1
      ensures step(text[2 * j], text[2 * j + 1]) == Some((o[2 * j], o[2 * j + 1]))
    {
      if j < i {
        assert o[2 * j] == out[2 * j] && o[2 * j + 1] == out[2 * j + 1];
      }
    }
  }

  /** A text with a digraph that cannot be placed does not go through. */
  lemma CryptStuck(g: seq<char>, text: string, j: nat, forward: bool, fallback: Option<Cell>)
    requires |g| == 25 && |text| % 2 == 0 && 2 * j + 2 <= |text| && (fallback.Some? ==> InGrid(fallback.value))
    requires PairOut(g, text[2 * j], text[2 * j + 1], forward, fallback).None?
    ensures Crypt(g, text, forward, fallback) == Failure(UndefinedBehaviour)
  {
    DivMod(|text|, 2);
    PairStepAt(g, forward, fallback, text[2 * j], text[2 * j + 1]);
    DigraphsStuck(PairStep(g, forward, fallback), text, j, |text| / 2);
  }

  /** One digraph through the grid: find both cells, apply the rules and
      read the two letters at the resulting cells. A letter matching no cell
      keeps the cell it started with: the fallback, or none at all. */
  method CryptPair(grid: array2<char>, x: char, y: char, forward: bool, fallback: Option<Cell>) returns (p: Option<(char, char)>)
    requires grid.Length0 == 5 && grid.Length1 == 5 && (fallback.Some? ==> InGrid(fallback.value))
    ensures p == PairOut(Contents(grid), x, y, forward, fallback)
  {
    ghost var g := Contents(grid);
    var cell1, cell2 := LocatePair(grid, x, y);
    if cell1.None? {
      cell1 := fallback;
    }
    if cell2.None? {
      cell2 := fallback;
    }
    if cell1.None? || cell2.None? {
      return None;
    }
    var cells := if forward then EncryptCells(cell1.value, cell2.value) else DecryptCells(cell1.value, cell2.value);
    assert g[IndexOfCell(cells.0)] == grid[cells.0.row, cells.0.col];
    assert g[IndexOfCell(cells.1)] == grid[cells.1.row, cells.1.col];
    p := Some((grid[cells.0.row, cells.0.col], grid[cells.1.row, cells.1.col]));
  }

  /** The digraph loop: each digraph through the grid, its two letters
      written back in its two places. A digraph that cannot be placed reads
      an uninitialised cell. */
  method CryptGrid(grid: array2<char>, text: string, forward: bool, fallback: Option<Cell>) returns (r: Result<string>)
    requires grid.Length0 == 5 && grid.Length1 == 5 && |text| % 2 == 0
    requires fallback.Some? ==> InGrid(fallback.value)
    ensures r == Crypt(Contents(grid), text, forward, fallback)
  {
    ghost var g := Contents(grid);
    ghost var step := PairStep(g, forward, fallback);
    var n := |text| / 2;
    DivMod(|text|, 2);
    var out := text;
    for i := 0 to n
      invariant |out| == |text|
      invariant forall j :: 0 <= j < i ==> step(text[2 * j], text[2 * j + 1]) == Some((out[2 * j], out[2 * j + 1]))
    {
      var p := CryptPair(grid, text[2 * i], text[2 * i + 1], forward, fallback);
      if p.None? {
        CryptStuck(g, text, i, forward, fallback);
        return Failure(UndefinedBehaviour);
      }
      PairStepAt(g, forward, fallback, text[2 * i], text[2 * i + 1]);
      PlaceNext(step, text, out, i, p.value);
      out := out[2 * i := p.value.0][2 * i + 1 := p.value.1];
    }
    CryptFrom(g, text, out, forward, fallback);
    return Success(out);
  }

  /** SAlpha holds exactly the 26 capitals. */
  lemma SAlphaLetters()
    ensures forall c :: c in SAlpha <==> IsCapital(c)
  {
    assert SAlpha == seq(26, i requires 0 <= i < 26 => ('A' as int + SAlphaRank(i)) as char);
    forall c | IsCapital(c)
      ensures c in SAlpha
    {
      var k := c as int - 'A' as int;
      assert SAlpha[SAlphaRank(k)] == c;
    }
  }

  /** A key of distinct capitals without the omitted capital gives exactly 25
      letters: every capital but the omitted one. */
  lemma SquareCovers(skey: string, omit: char)
    requires Distinct(skey) && IsCapital(omit) && omit !in skey
    requires forall c :: c in skey ==> IsCapital(c)
    ensures |Square(skey, omit)| == 25
    ensures forall c :: c in Square(skey, omit) <==> IsCapital(c) && c != omit
  {
    SAlphaLetters();
    SAlphaDistinct();
    SquareFacts(skey, omit);
    var sq := Square(skey, omit);
    assert forall c :: c in sq <==> IsCapital(c) && c != omit;
    assert (set c | c in sq) == (set c | c in SAlpha) - {omit};
    DistinctCard(sq);
  }
}
