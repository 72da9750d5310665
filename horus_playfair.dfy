/** The Horus Playfair cipher on an alphabet of any grid size, with the
    members it inherits from the classical-algorithm base (Encrypt, Decrypt
    and the dictionary attack). The key table is the alphabet with the key's
    distinct characters moved to the front; each digraph is replaced by the
    rectangle rule, or shifted along its row or column. */
module HorusPlayfair {
  import opened Wrappers
  import opened Text
  import opened Arith
  import Collections
  import opened Alphabets
  import Classical
  import DictionaryAttack

  /** How a digraph of two equal characters is shifted: along its row
      (Horizontal) or along its column (Vertical). */
  datatype Orientation = Horizontal | Vertical

  // ---------------------------------------------------------------------
  // The key table

  /** The key table: the alphabet with the key characters moved, in turn, to
      indices 0, 1, 2, ...; a key character missing from the alphabet throws
      NullReferenceException, an index past the end ArgumentOutOfRange. */
  function KeyTable(items: seq<char>, keys: seq<char>): Result<seq<char>>
  {
    if keys == [] then Success(items)
    else
      var table :- KeyTable(items, keys[..|keys| - 1]);
      var c, index := keys[|keys| - 1], |keys| - 1;
      if c !in table then Failure(NullReference)
      else if index >= |table| then Failure(ArgumentOutOfRange)
      else Success(Collections.Moved(table, IndexOf(table, c), index))
  }

  /** For distinct key characters all in an alphabet of distinct
      characters, the key table is a rearrangement of the alphabet that
      starts with the key. */
  lemma {:induction false} KeyTableShape(items: seq<char>, keys: seq<char>)
    requires Distinct(items) && Distinct(keys)
    requires forall c :: c in keys ==> c in items
    ensures KeyTable(items, keys).Success?
    ensures var table := KeyTable(items, keys).value;
      |table| == |items| && Distinct(table) && (forall c :: c in table <==> c in items) &&
      |keys| <= |table| && table[..|keys|] == keys
  {
    if keys == [] {
    } else {
      var front, c := keys[..|keys| - 1], keys[|keys| - 1];
      assert keys == front + [c];
      assert forall x :: x in front ==> x in keys;
      KeyTableShape(items, front);
      var table := KeyTable(items, front).value;
      assert c !in front by {
        forall j | 0 <= j < |front|
          ensures front[j] != c
        {
          assert keys[j] == front[j];
        }
      }
      MoveKeyStep(table, front, c);
    }
  }

  /** Moving the next key character into place: the table still starts
      with the key so far, and now with the character after it. */
  lemma MoveKeyStep(table: seq<char>, front: seq<char>, c: char)
    requires Distinct(table) && |front| <= |table| && table[..|front|] == front
    requires c in table && c !in front
    ensures IndexOf(table, c) >= |front|
    ensures var moved := Collections.Moved(table, IndexOf(table, c), |front|);
      |moved| == |table| && Distinct(moved) && (forall x :: x in moved <==> x in table) &&
      moved[..|front| + 1] == front + [c]
  {
    var j := IndexOf(table, c);
    var moved := Collections.Moved(table, j, |front|);
    Collections.MovedProperties(table, j, |front|);
    Collections.MovedDistinct(table, j, |front|);
    Collections.MovedPrefix(table, j, |front|);
    forall x
      ensures x in moved <==> x in table
    {
      assert x in moved <==> x in multiset(moved);
      assert x in table <==> x in multiset(table);
    }
  }

  // ---------------------------------------------------------------------
  // One digraph

  /** Limit with the table's dimensions as written (the C# remainder), or
      the wrap-around the cipher needs (the Euclidean remainder). */
  function Limited(d: Dimensions, bounds: Dimensions, asWritten: bool): Result<Dimensions>
  {
    if asWritten then Limit(d, bounds.x, bounds.y) else Wrap(d, bounds.x, bounds.y)
  }

  /** The positions of a digraph that shares a row or a column, shifted by
      m: both along the orientation when they are the same point, both down
      the column when they share it, both along the row otherwise. */
  function Shifted(pa: Dimensions, pb: Dimensions, orientation: Orientation, m: int): (Dimensions, Dimensions)
  {
    if pa == pb then
      var p := if orientation == Horizontal then Dimensions(pa.x + m, pa.y) else Dimensions(pa.x, pa.y + m);
      (p, p)
    else if pa.x == pb.x then (Dimensions(pa.x, pa.y + m), Dimensions(pb.x, pb.y + m))
    else (Dimensions(pa.x + m, pa.y), Dimensions(pb.x + m, pb.y))
  }

  /** The new positions of a digraph at pa, pb: the opposite corners of their
      rectangle, or the shifted positions brought back into the grid. */
  function NewPositions(pa: Dimensions, pb: Dimensions, orientation: Orientation, m: int,
                        bounds: Dimensions, asWritten: bool): Result<(Dimensions, Dimensions)>
  {
    if pa.x != pb.x && pa.y != pb.y then Success((Dimensions(pb.x, pa.y), Dimensions(pa.x, pb.y)))
    else
      var (na, nb) := Shifted(pa, pb, orientation, m);
      var la :- Limited(na, bounds, asWritten);
      var lb :- Limited(nb, bounds, asWritten);
      Success((la, lb))
  }

  /** One step of the ciphering loop: the digraph a, b located in the key
      table, its new positions found and read back. */
  function Digraph(table: seq<char>, bounds: Dimensions, orientation: Orientation, a: char, b: char,
                   forward: bool, asWritten: bool): (r: Result<seq<char>>)
    ensures r.Success? ==> |r.value| == 2 && r.value[0] in table && r.value[1] in table
  {
    var pa :- DimensionsOf(table, bounds, a);
    var pb :- DimensionsOf(table, bounds, b);
    var np :- NewPositions(pa, pb, orientation, if forward then 1 else -1, bounds, asWritten);
    var ca :- CharAt(table, bounds, np.0);
    var cb :- CharAt(table, bounds, np.1);
    Success([ca, cb])
  }

  /** The ciphering loop over a text of even length, digraph by digraph; the
      first digraph that fails decides the failure. */
  function Digraphs(table: seq<char>, bounds: Dimensions, orientation: Orientation, text: string,
                    forward: bool, asWritten: bool): (r: Result<string>)
    requires |text| % 2 == 0
    ensures r.Success? ==> |r.value| == |text| && forall c :: c in r.value ==> c in table
  {
    if text == [] then Success([])
    else
      var prev :- Digraphs(table, bounds, orientation, text[..|text| - 2], forward, asWritten);
      var pair :- Digraph(table, bounds, orientation, text[|text| - 2], text[|text| - 1], forward, asWritten);
      Success(prev + pair)
  }

  /** A text of odd length gets the alphabet's last character appended; an
      empty alphabet has none and throws ArgumentOutOfRangeException. */
  function Padded(items: seq<char>, input: string): (r: Result<string>)
    ensures r.Success? ==> |r.value| % 2 == 0 && input <= r.value && |r.value| <= |input| + 1
    ensures |input| % 2 == 0 ==> r == Success(input)
    ensures |input| % 2 != 0 && items == [] ==> r == Failure(ArgumentOutOfRange)
  {
    if |input| % 2 == 0 then Success(input)
    else if items == [] then Failure(ArgumentOutOfRange)
    else Success(input + [items[|items| - 1]])
  }

  /** Run(input, forward): the key table built from the alphabet and the
      key, the input padded, and every digraph ciphered. */
  function RunSpec(items: seq<char>, bounds: Dimensions, key: string, orientation: Orientation,
                   input: string, forward: bool, asWritten: bool): Result<string>
  {
    var table :- KeyTable(Dedup(items), Dedup(key));
    var text :- Padded(items, input);
    Digraphs(table, bounds, orientation, text, forward, asWritten)
  }

  // ---------------------------------------------------------------------
  // Deciphering undoes enciphering

  /** A key table that fills its grid exactly. */
  predicate Grid(table: seq<char>, bounds: Dimensions)
  {
    Distinct(table) && bounds.x > 0 && bounds.y > 0 && bounds.x * bounds.y == |table|
  }

  predicate InGrid(p: Dimensions, bounds: Dimensions)
  {
    0 <= p.x < bounds.x && 0 <= p.y < bounds.y
  }

  /** Every cell of the grid holds a character whose position is that cell. */
  lemma CellChar(table: seq<char>, bounds: Dimensions, p: Dimensions)
    requires Grid(table, bounds) && InGrid(p, bounds)
    ensures CharAt(table, bounds, p).Success?
    ensures DimensionsOf(table, bounds, CharAt(table, bounds, p).value) == Success(p)
  {
    var k := bounds.x * p.y + p.x;
    MulMonotone(bounds.y - 1, p.y, bounds.x);
    assert bounds.x * (bounds.y - 1) == bounds.x * bounds.y - bounds.x;
    assert 0 <= k < |table|;
    assert CharAt(table, bounds, p) == Success(table[k]);
    IndexOfDistinct(table, k);
    ModUnique(k, bounds.x, p.y, p.x);
  }

  /** Every character of the table has a position inside the grid, and that
      position reads back the character. */
  lemma CharCell(table: seq<char>, bounds: Dimensions, c: char)
    requires Grid(table, bounds) && c in table
    ensures DimensionsOf(table, bounds, c).Success?
    ensures InGrid(DimensionsOf(table, bounds, c).value, bounds)
    ensures CharAt(table, bounds, DimensionsOf(table, bounds, c).value) == Success(c)
  {
    var p := DimensionsOf(table, bounds, c).value;
    var k := IndexOf(table, c);
    if p.y < 0 {
      MulMonotone(-p.y, 1, bounds.x);
    }
    if p.y >= bounds.y {
      MulMonotone(p.y, bounds.y, bounds.x);
    }
    DimensionsRoundTrip(table, bounds, c);
  }

  /** A coordinate in range is its own residue. */
  lemma InRange(v: int, n: int)
    requires 0 <= v < n
    ensures v % n == v
  {
    ModUnique(v, n, 0, v);
  }

  /** Shifting a point one step forward and wrapping it, then one step back
      and wrapping it, returns the point. */
  lemma PointRoundTrip(p: Dimensions, bounds: Dimensions, orientation: Orientation)
    requires InGrid(p, bounds)
    ensures var q := Wrap(Shifted(p, p, orientation, 1).0, bounds.x, bounds.y).value;
      InGrid(q, bounds) && Wrap(Shifted(q, q, orientation, -1).0, bounds.x, bounds.y) == Success(p)
  {
    InRange(p.x, bounds.x);
    InRange(p.y, bounds.y);
    if orientation == Horizontal {
      var x := StepBack(p.x, 1, bounds.x);
    } else {
      var y := StepBack(p.y, 1, bounds.y);
    }
  }

  /** Shifting two distinct cells of a column (or a row) one step forward
      gives two distinct cells of it, and the step back returns them. */
  lemma LineRoundTrip(u: int, v: int, n: int) returns (u': int, v': int)
    requires 0 <= u < n && 0 <= v < n && u != v
    ensures u' == (u + 1) % n && v' == (v + 1) % n && 0 <= u' < n && 0 <= v' < n && u' != v'
    ensures (u' - 1) % n == u && (v' - 1) % n == v
  {
    u' := StepBack(u, 1, n);
    v' := StepBack(v, 1, n);
  }

  /** On positions: for two cells of the grid the forward substitution gives
      two cells of the grid, and the backward substitution returns them. */
  lemma PositionsRoundTrip(pa: Dimensions, pb: Dimensions, orientation: Orientation, bounds: Dimensions)
    requires InGrid(pa, bounds) && InGrid(pb, bounds)
    ensures NewPositions(pa, pb, orientation, 1, bounds, false).Success?
    ensures var np := NewPositions(pa, pb, orientation, 1, bounds, false).value;
      InGrid(np.0, bounds) && InGrid(np.1, bounds) && (np.0 == np.1 <==> pa == pb) &&
      NewPositions(np.0, np.1, orientation, -1, bounds, false) == Success((pa, pb))
  {
    if pa.x != pb.x && pa.y != pb.y {
    } else if pa == pb {
      PointRoundTrip(pa, bounds, orientation);
    } else if pa.x == pb.x {
      InRange(pa.x, bounds.x);
      var ya, yb := LineRoundTrip(pa.y, pb.y, bounds.y);
    } else {
      InRange(pa.y, bounds.y);
      var xa, xb := LineRoundTrip(pa.x, pb.x, bounds.x);
    }
  }

  /** On characters: enciphering a digraph of table characters succeeds and
      deciphering the result gives the digraph back. */
  lemma DigraphRoundTrip(table: seq<char>, bounds: Dimensions, orientation: Orientation, a: char, b: char)
    requires Grid(table, bounds) && a in table && b in table
    ensures Digraph(table, bounds, orientation, a, b, true, false).Success?
    ensures var e := Digraph(table, bounds, orientation, a, b, true, false).value;
      Digraph(table, bounds, orientation, e[0], e[1], false, false) == Success([a, b])
  {
    CharCell(table, bounds, a);
    CharCell(table, bounds, b);
    var pa, pb := DimensionsOf(table, bounds, a).value, DimensionsOf(table, bounds, b).value;
    PositionsRoundTrip(pa, pb, orientation, bounds);
    var np := NewPositions(pa, pb, orientation, 1, bounds, false).value;
    CellChar(table, bounds, np.0);
    CellChar(table, bounds, np.1);
  }

  /** Deciphering a text enciphered with the same table gives it back. */
  lemma {:induction false} DigraphsRoundTrip(table: seq<char>, bounds: Dimensions, orientation: Orientation, text: string)
    requires Grid(table, bounds) && |text| % 2 == 0 && forall c :: c in text ==> c in table
    ensures Digraphs(table, bounds, orientation, text, true, false).Success?
    ensures Digraphs(table, bounds, orientation, Digraphs(table, bounds, orientation, text, true, false).value, false, false)
      == Success(text)
  {
    if text != [] {
      var front := text[..|text| - 2];
      var a, b := text[|text| - 2], text[|text| - 1];
      assert text == front + [a, b];
      assert forall c :: c in front ==> c in text;
      DigraphsRoundTrip(table, bounds, orientation, front);
      DigraphRoundTrip(table, bounds, orientation, a, b);
      var e := Digraphs(table, bounds, orientation, front, true, false).value;
      var pair := Digraph(table, bounds, orientation, a, b, true, false).value;
      var whole := e + pair;
      assert whole[..|whole| - 2] == e;
      assert whole[|whole| - 2..] == pair;
    }
  }

  /** Run(Run(input, true), false) gives back the padded input, when the
      alphabet's characters are distinct and fill its grid, and the key and
      the input only use characters of the alphabet. */
  lemma RunRoundTrip(items: seq<char>, bounds: Dimensions, key: string, orientation: Orientation, input: string)
    requires Distinct(items) && bounds.x > 0 && bounds.y > 0 && bounds.x * bounds.y == |items|
    requires forall c :: c in key ==> c in items
    requires forall c :: c in input ==> c in items
    ensures RunSpec(items, bounds, key, orientation, input, true, false).Success?
    ensures var e := RunSpec(items, bounds, key, orientation, input, true, false).value;
      RunSpec(items, bounds, key, orientation, e, false, false) == Padded(items, input)
  {
    DedupDistinct(items);
    KeyTableShape(items, Dedup(key));
    var table := KeyTable(items, Dedup(key)).value;
    var text := Padded(items, input).value;
    assert forall c :: c in text ==> c in items by {
      if |input| % 2 != 0 {
        assert items[|items| - 1] in items;
      }
    }
    DigraphsRoundTrip(table, bounds, orientation, text);
  }

  // ---------------------------------------------------------------------
  // Dimensions.Limit breaks deciphering

  /** With the remainder as written, deciphering a digraph whose shift goes
      left of column 0 reads index -1: in the alphabet ABCD on a 2 x 2 grid
      with an empty key, AB enciphers to BA, and deciphering BA throws
      instead of giving AB back. */
  lemma LimitBreaksDecrypt()
    ensures RunSpec("ABCD", Dimensions(2, 2), "", Horizontal, "AB", true, true) == Success("BA")
    ensures RunSpec("ABCD", Dimensions(2, 2), "", Horizontal, "BA", false, true) == Failure(ArgumentOutOfRange)
    ensures RunSpec("ABCD", Dimensions(2, 2), "", Horizontal, "BA", false, false) == Success("AB")
  {
    var items, bounds := "ABCD", Dimensions(2, 2);
    AbcdTable();
    OneDigraph(items, bounds, Horizontal, "AB", true, true);
    AbcdForward();
    OneDigraph(items, bounds, Horizontal, "BA", false, true);
    AbcdBackFails();
    OneDigraph(items, bounds, Horizontal, "BA", false, false);
    AbcdBackWrapped();
  }

  /** The key table of ABCD with an empty key is ABCD itself. */
  lemma AbcdTable()
    ensures KeyTable(Dedup("ABCD"), Dedup("")) == Success("ABCD")
  {
    DedupDistinct("ABCD");
    assert Dedup("") == [];
  }

  /** The positions of A and B in ABCD on a 2 x 2 grid. */
  lemma AbcdPositions()
    ensures DimensionsOf("ABCD", Dimensions(2, 2), 'A') == Success(Dimensions(0, 0))
    ensures DimensionsOf("ABCD", Dimensions(2, 2), 'B') == Success(Dimensions(1, 0))
  {
    assert IndexOf("ABCD", 'A') == 0;
    assert IndexOf("ABCD", 'B') == 1;
  }

  /** The new positions of two different characters in one row are their
      positions shifted along the row and brought back into the grid. */
  lemma RowShift(pa: Dimensions, pb: Dimensions, orientation: Orientation, m: int, bounds: Dimensions,
                 asWritten: bool, la: Dimensions, lb: Dimensions)
    requires pa.y == pb.y && pa.x != pb.x
    requires Limited(Dimensions(pa.x + m, pa.y), bounds, asWritten) == Success(la)
    requires Limited(Dimensions(pb.x + m, pb.y), bounds, asWritten) == Success(lb)
    ensures NewPositions(pa, pb, orientation, m, bounds, asWritten) == Success((la, lb))
  {
  }

  /** Shifting right from column 1 wraps to column 0. */
  lemma AbcdShiftRight()
    ensures NewPositions(Dimensions(0, 0), Dimensions(1, 0), Horizontal, 1, Dimensions(2, 2), true) ==
      Success((Dimensions(1, 0), Dimensions(0, 0)))
  {
    LimitRightEdge();
    LimitedInGrid(Dimensions(1, 0), Dimensions(2, 2), true);
    RowShift(Dimensions(0, 0), Dimensions(1, 0), Horizontal, 1, Dimensions(2, 2), true,
      Dimensions(1, 0), Dimensions(0, 0));
  }

  /** Shifting left from column 0 wraps to column 1. */
  lemma AbcdShiftLeft()
    ensures NewPositions(Dimensions(1, 0), Dimensions(0, 0), Horizontal, -1, Dimensions(2, 2), false) ==
      Success((Dimensions(0, 0), Dimensions(1, 0)))
  {
    WrapLeftEdge();
    LimitedInGrid(Dimensions(0, 0), Dimensions(2, 2), false);
    RowShift(Dimensions(1, 0), Dimensions(0, 0), Horizontal, -1, Dimensions(2, 2), false,
      Dimensions(0, 0), Dimensions(1, 0));
  }

  /** With the remainder as written, shifting left from column 0 stays at
      column -1. */
  lemma AbcdShiftLeftAsWritten()
    ensures NewPositions(Dimensions(1, 0), Dimensions(0, 0), Horizontal, -1, Dimensions(2, 2), true) ==
      Success((Dimensions(0, 0), Dimensions(-1, 0)))
  {
    LimitLeftEdge();
    LimitedInGrid(Dimensions(0, 0), Dimensions(2, 2), true);
    RowShift(Dimensions(1, 0), Dimensions(0, 0), Horizontal, -1, Dimensions(2, 2), true,
      Dimensions(0, 0), Dimensions(-1, 0));
  }

  /** A position inside the grid is left where it is. */
  lemma LimitedInGrid(d: Dimensions, bounds: Dimensions, asWritten: bool)
    requires InGrid(d, bounds)
    ensures Limited(d, bounds, asWritten) == Success(d)
  {
    ModUnique(d.x, bounds.x, 0, d.x);
    ModUnique(d.y, bounds.y, 0, d.y);
  }

  /** Column 2 of a two-column grid is column 0 again. */
  lemma LimitRightEdge()
    ensures Limited(Dimensions(2, 0), Dimensions(2, 2), true) == Success(Dimensions(0, 0))
  {
    ModUnique(2, 2, 1, 0);
    ModUnique(0, 2, 0, 0);
  }

  /** The remainder as written leaves column -1 where it is. */
  lemma LimitLeftEdge()
    ensures Limited(Dimensions(-1, 0), Dimensions(2, 2), true) == Success(Dimensions(-1, 0))
  {
    ModUnique(1, 2, 0, 1);
    assert TruncDiv(-1, 2) == 0;
  }

  /** Column -1 wraps to the last column. */
  lemma WrapLeftEdge()
    ensures Limited(Dimensions(-1, 0), Dimensions(2, 2), false) == Success(Dimensions(1, 0))
  {
    ModUnique(-1, 2, -1, 1);
  }

  /** The cells of A and B read back. */
  lemma AbcdCells()
    ensures CharAt("ABCD", Dimensions(2, 2), Dimensions(0, 0)) == Success('A')
    ensures CharAt("ABCD", Dimensions(2, 2), Dimensions(1, 0)) == Success('B')
    ensures CharAt("ABCD", Dimensions(2, 2), Dimensions(-1, 0)) == Failure(ArgumentOutOfRange)
  {
  }

  /** A digraph whose two characters have been located and whose new
      positions have been found is the pair of characters read there. */
  lemma DigraphFrom(table: seq<char>, bounds: Dimensions, orientation: Orientation, a: char, b: char,
                    forward: bool, asWritten: bool, pa: Dimensions, pb: Dimensions, na: Dimensions, nb: Dimensions,
                    ca: char, cb: Result<char>)
    requires DimensionsOf(table, bounds, a) == Success(pa) && DimensionsOf(table, bounds, b) == Success(pb)
    requires NewPositions(pa, pb, orientation, if forward then 1 else -1, bounds, asWritten) == Success((na, nb))
    requires CharAt(table, bounds, na) == Success(ca) && CharAt(table, bounds, nb) == cb
    ensures Digraph(table, bounds, orientation, a, b, forward, asWritten) ==
      if cb.Success? then Success([ca, cb.value]) else Failure(cb.error)
  {
  }

  /** AB enciphers to BA with the remainder as written. */
  lemma AbcdForward()
    ensures Digraph("ABCD", Dimensions(2, 2), Horizontal, 'A', 'B', true, true) == Success("BA")
  {
    var bounds := Dimensions(2, 2);
    AbcdPositions();
    AbcdCells();
    AbcdShiftRight();
    DigraphFrom("ABCD", bounds, Horizontal, 'A', 'B', true, true, Dimensions(0, 0), Dimensions(1, 0),
      Dimensions(1, 0), Dimensions(0, 0), 'B', Success('A'));
  }

  /** BA deciphers to AB with the wrap-around. */
  lemma AbcdBackWrapped()
    ensures Digraph("ABCD", Dimensions(2, 2), Horizontal, 'B', 'A', false, false) == Success("AB")
  {
    var bounds := Dimensions(2, 2);
    AbcdPositions();
    AbcdCells();
    AbcdShiftLeft();
    DigraphFrom("ABCD", bounds, Horizontal, 'B', 'A', false, false, Dimensions(1, 0), Dimensions(0, 0),
      Dimensions(0, 0), Dimensions(1, 0), 'A', Success('B'));
  }

  /** Deciphering BA with the remainder as written reads column -1. */
  lemma AbcdBackFails()
    ensures Digraph("ABCD", Dimensions(2, 2), Horizontal, 'B', 'A', false, true) == Failure(ArgumentOutOfRange)
  {
    var bounds := Dimensions(2, 2);
    AbcdPositions();
    AbcdCells();
    AbcdShiftLeftAsWritten();
    DigraphFrom("ABCD", bounds, Horizontal, 'B', 'A', false, true, Dimensions(1, 0), Dimensions(0, 0),
      Dimensions(0, 0), Dimensions(-1, 0), 'A', Failure(ArgumentOutOfRange));
  }

  /** A two-character text is ciphered by its one digraph. */
  lemma OneDigraph(table: seq<char>, bounds: Dimensions, orientation: Orientation, text: string,
                   forward: bool, asWritten: bool)
    requires |text| == 2
    ensures Digraphs(table, bounds, orientation, text, forward, asWritten) ==
      var pair := Digraph(table, bounds, orientation, text[0], text[1], forward, asWritten);
      if pair.Failure? then Failure(pair.error) else Success(pair.value)
  {
    assert text[..0] == [];
    var pair := Digraph(table, bounds, orientation, text[0], text[1], forward, asWritten);
    if pair.Success? {
      assert [] + pair.value == pair.value;
    }
  }

  // ---------------------------------------------------------------------
  // Enciphering does not meet the flaw in Limit

  /** A letter located in a grid of non-negative width has coordinates that
      are not negative. */
  lemma LocatedNonNegative(items: seq<char>, bounds: Dimensions, c: char)
    requires bounds.x >= 0 && DimensionsOf(items, bounds, c).Success?
    ensures DimensionsOf(items, bounds, c).value.x >= 0 && DimensionsOf(items, bounds, c).value.y >= 0
  {
    assert c in items && bounds.x > 0;
    var p := DimensionsOf(items, bounds, c).value;
    var index := IndexOf(items, c);
    assert 0 <= index && bounds.x * p.y + p.x == index && p.x < bounds.x;
    if p.y < 0 {
      MulMonotone(-p.y, 1, bounds.x);
      assert false;
    }
  }

  /** Limit as written and the wrap-around agree on a point that is not
      negative. */
  lemma LimitedAgree(d: Dimensions, bounds: Dimensions)
    requires d.x >= 0 && d.y >= 0 && bounds.x >= 0 && bounds.y >= 0
    ensures Limited(d, bounds, true) == Limited(d, bounds, false)
  {
    if bounds.x > 0 && bounds.y > 0 {
      LimitWrapAgree(d, bounds.x, bounds.y);
    }
  }

  /** Enciphering one digraph only moves coordinates up, so Limit as written
      gives what the wrap-around gives. */
  lemma DigraphForwardAgrees(table: seq<char>, bounds: Dimensions, orientation: Orientation, a: char, b: char)
    requires bounds.x >= 0 && bounds.y >= 0
    ensures Digraph(table, bounds, orientation, a, b, true, true) == Digraph(table, bounds, orientation, a, b, true, false)
  {
    var pa := DimensionsOf(table, bounds, a);
    var pb := DimensionsOf(table, bounds, b);
    if pa.Success? && pb.Success? {
      LocatedNonNegative(table, bounds, a);
      LocatedNonNegative(table, bounds, b);
      var (na, nb) := Shifted(pa.value, pb.value, orientation, 1);
      LimitedAgree(na, bounds);
      LimitedAgree(nb, bounds);
      assert NewPositions(pa.value, pb.value, orientation, 1, bounds, true) ==
        NewPositions(pa.value, pb.value, orientation, 1, bounds, false);
    }
  }

  /** Enciphering a text with Limit as written gives what the wrap-around
      gives. */
  lemma {:induction false} DigraphsForwardAgree(table: seq<char>, bounds: Dimensions, orientation: Orientation, text: string)
    requires bounds.x >= 0 && bounds.y >= 0 && |text| % 2 == 0
    ensures Digraphs(table, bounds, orientation, text, true, true) == Digraphs(table, bounds, orientation, text, true, false)
    decreases |text|
  {
    if text != [] {
      DigraphsForwardAgree(table, bounds, orientation, text[..|text| - 2]);
      DigraphForwardAgrees(table, bounds, orientation, text[|text| - 2], text[|text| - 1]);
    }
  }

  /** Run(input, true) as written gives what the wrap-around gives: only
      deciphering meets the -1 that Limit leaves. */
  lemma RunForwardAgrees(items: seq<char>, bounds: Dimensions, key: string, orientation: Orientation, input: string)
    requires bounds.x >= 0 && bounds.y >= 0
    ensures RunSpec(items, bounds, key, orientation, input, true, true) == RunSpec(items, bounds, key, orientation, input, true, false)
  {
    var table := KeyTable(Dedup(items), Dedup(key));
    var text := Padded(items, input);
    if table.Success? && text.Success? {
      DigraphsForwardAgree(table.value, bounds, orientation, text.value);
    }
  }

  // ---------------------------------------------------------------------
  // The dictionary attack

  /** Hack's key loop: each key of the dictionary deciphers the input, and
      the keys whose output passes the language check are kept, in order; a
      decipherment that throws ends the attack with its exception. */
  function HackWith(keys: seq<string>, lang: seq<string>, decipher: string -> Result<string>)
    : Result<seq<Classical.AttackPossibility>>
  {
    if keys == [] then Success([])
    else
      var prev :- HackWith(keys[..|keys| - 1], lang, decipher);
      var key := keys[|keys| - 1];
      var output :- decipher(key);
      Success(prev + if Classical.Check(lang, output) then [Classical.AttackPossibility(key, output)] else [])
  }

  /** The Playfair attack: each key deciphers the input with the alphabet's
      table, through Limit as written. */
  function HackSpec(keys: seq<string>, lang: seq<string>, items: seq<char>, bounds: Dimensions,
                    orientation: Orientation, input: string): Result<seq<Classical.AttackPossibility>>
  {
    HackWith(keys, lang, key => RunSpec(items, bounds, key, orientation, input, false, true))
  }

  /** Trying one more key. */
  lemma HackSnoc(keys: seq<string>, key: string, lang: seq<string>, items: seq<char>, bounds: Dimensions,
                 orientation: Orientation, input: string)
    ensures var prev := HackSpec(keys, lang, items, bounds, orientation, input);
      var output := RunSpec(items, bounds, key, orientation, input, false, true);
      HackSpec(keys + [key], lang, items, bounds, orientation, input) ==
        if prev.Failure? then prev
        else if output.Failure? then Failure(output.error)
        else Success(prev.value + if Classical.Check(lang, output.value) then
          [Classical.AttackPossibility(key, output.value)] else [])
  {
    assert (keys + [key])[..|keys|] == keys;
  }

  /** The deciphering of key succeeds, gives p's output, and that output
      passes the language check. */
  predicate Passes(lang: seq<string>, decipher: string -> Result<string>, p: Classical.AttackPossibility)
  {
    decipher(p.key) == Success(p.output) && Classical.Check(lang, p.output)
  }

  /** The attack fails exactly when some key's decipherment fails. */
  lemma {:induction false} HackWithFails(keys: seq<string>, lang: seq<string>, decipher: string -> Result<string>)
    ensures HackWith(keys, lang, decipher).Failure? <==> exists k :: k in keys && decipher(k).Failure?
  {
    if keys != [] {
      var front := keys[..|keys| - 1];
      assert keys == front + [keys[|keys| - 1]];
      HackWithFails(front, lang, decipher);
    }
  }

  /** What a successful attack reports comes from a dictionary key whose
      decipherment passes. */
  lemma {:induction false} HackWithSound(keys: seq<string>, lang: seq<string>, decipher: string -> Result<string>,
                                         p: Classical.AttackPossibility)
    requires HackWith(keys, lang, decipher).Success? && p in HackWith(keys, lang, decipher).value
    ensures p.key in keys && Passes(lang, decipher, p)
  {
    var front := keys[..|keys| - 1];
    assert keys == front + [keys[|keys| - 1]];
    if p !in HackWith(front, lang, decipher).value {
      assert p.key == keys[|keys| - 1];
    } else {
      HackWithSound(front, lang, decipher, p);
    }
  }

  /** A successful attack reports every dictionary key whose decipherment
      passes. */
  lemma {:induction false} HackWithComplete(keys: seq<string>, lang: seq<string>, decipher: string -> Result<string>,
                                            p: Classical.AttackPossibility)
    requires HackWith(keys, lang, decipher).Success? && p.key in keys && Passes(lang, decipher, p)
    ensures p in HackWith(keys, lang, decipher).value
  {
    var front := keys[..|keys| - 1];
    assert keys == front + [keys[|keys| - 1]];
    if p.key != keys[|keys| - 1] {
      HackWithComplete(front, lang, decipher, p);
    }
  }

  // ---------------------------------------------------------------------
  // The cipher object

  /** A Playfair cipher: the alphabet and its grid, the key, the
      orientation for equal pairs, and the dictionary-attack state it
      inherits. */
  class Playfair {
    var alphabet: Alphabet
    var key: string
    var orientation: Orientation
    var attacker: DictionaryAttack.DictionaryAttacker

    /** A cipher on the alphabet with the key; equal pairs shift along their
        row until told otherwise. */
    constructor(alphabet: Alphabet, key: string)
      ensures this.alphabet == alphabet && this.key == key && orientation == Horizontal
      ensures fresh(attacker) && !attacker.dictLoaded
    {
      this.alphabet := alphabet;
      this.key := key;
      orientation := Horizontal;
      attacker := new DictionaryAttack.DictionaryAttacker();
    }

    /** Run(input, forward): a fresh key table (a copy of the alphabet and
        its dimensions, the key's distinct characters moved to the front),
        the input padded to even length, then each digraph ciphered, with
        shifted positions brought back by Limit as written. */
    method Run(input: string, forward: bool) returns (r: Result<string>)
      ensures r == RunSpec(alphabet.items, alphabet.dimensions, key, orientation, input, forward, true)
    {
      var keytable := new Alphabet.FromString(alphabet.items);
      keytable.dimensions := alphabet.dimensions;
      var distinct := Dedup(key);
      var err := MoveKey(keytable, distinct);
      if err.Some? {
        return Failure(err.value);
      }
      var text := input;
      if |input| % 2 != 0 {
        if |alphabet.items| == 0 {
          return Failure(ArgumentOutOfRange);
        }
        text := input + [alphabet.items[|alphabet.items| - 1]];
      }
      r := Cipher(keytable, text, forward);
    }

    /** The ciphering loop over the padded text. */
    method Cipher(keytable: Alphabet, text: string, forward: bool) returns (r: Result<string>)
      requires |text| % 2 == 0
      ensures r == Digraphs(keytable.items, keytable.dimensions, orientation, text, forward, true)
    {
      ghost var table, bounds := keytable.items, keytable.dimensions;
      var output: string := [];
      var i := 0;
      while i < |text|
        invariant 0 <= i <= |text| && i % 2 == 0
        invariant Digraphs(table, bounds, orientation, text[..i], forward, true) == Success(output)
      {
        EvenGap(i, |text|);
        var next := CipherStep(keytable, text, forward, i, output);
        if next.Failure? {
          DigraphsStop(table, bounds, orientation, text, forward, true, i + 2);
          return next;
        }
        output := next.value;
        ModShift(i, 2, 1);
        i := i + 2;
      }
      assert text[..i] == text;
      return Success(output);
    }

    /** One pass of the ciphering loop: the digraph at i ciphered and
        appended to the output so far. */
    method CipherStep(keytable: Alphabet, text: string, forward: bool, i: nat, output: string) returns (r: Result<string>)
      requires i + 2 <= |text| && i % 2 == 0 && |text| % 2 == 0
      requires Digraphs(keytable.items, keytable.dimensions, orientation, text[..i], forward, true) == Success(output)
      ensures r == Digraphs(keytable.items, keytable.dimensions, orientation, text[..i + 2], forward, true)
    {
      var pair := Substitute(keytable, text[i], text[i + 1], forward);
      DigraphsNext(keytable.items, keytable.dimensions, orientation, text, forward, true, i);
      if pair.Failure? {
        return Failure(pair.error);
      }
      return Success(output + pair.value);
    }

    /** The body of the ciphering loop for the digraph a, b: locate both,
        take the rectangle's other corners, or shift a pair that shares a
        row or column and pass it through Limit as written (which leaves
        -1 at -1), then read the key table. */
    method Substitute(keytable: Alphabet, a: char, b: char, forward: bool) returns (r: Result<seq<char>>)
      ensures r == Digraph(keytable.items, keytable.dimensions, orientation, a, b, forward, true)
    {
      var bounds := keytable.dimensions;
      var pa := DimensionsOf(keytable.items, bounds, a);
      if pa.Failure? {
        return Failure(pa.error);
      }
      var pb := DimensionsOf(keytable.items, bounds, b);
      if pb.Failure? {
        return Failure(pb.error);
      }
      var p, q := pa.value, pb.value;
      var multiplier := if forward then 1 else -1;
      var newA, newB := Dimensions(q.x, p.y), Dimensions(p.x, q.y);
      if p.x == q.x || p.y == q.y {
        newA, newB := p, q;
        if p == q {
          if orientation == Horizontal {
            newA := newA.(x := newA.x + multiplier);
          } else {
            newA := newA.(y := newA.y + multiplier);
          }
          newB := newA;
        } else if p.x == q.x {
          newA := newA.(y := newA.y + multiplier);
          newB := newB.(y := newB.y + multiplier);
        } else {
          newA := newA.(x := newA.x + multiplier);
          newB := newB.(x := newB.x + multiplier);
        }
        var la := Limit(newA, bounds.x, bounds.y);
        assert Shifted(p, q, orientation, multiplier) == (newA, newB);
        if la.Failure? {
          return Failure(la.error);
        }
        var lb := Limit(newB, bounds.x, bounds.y);
        if lb.Failure? {
          return Failure(lb.error);
        }
        newA, newB := la.value, lb.value;
      }
      assert NewPositions(p, q, orientation, multiplier, bounds, true) == Success((newA, newB));
      var ca := CharAt(keytable.items, bounds, newA);
      if ca.Failure? {
        return Failure(ca.error);
      }
      var cb := CharAt(keytable.items, bounds, newB);
      if cb.Failure? {
        return Failure(cb.error);
      }
      return Success([ca.value, cb.value]);
    }

    /** Encrypt(input): Run forward. Limit as written meets no negative
        coordinate on the way forward, so the output is the one the
        wrap-around gives, which the corrected decipherment takes back to
        the padded input. */
    method Encrypt(input: string) returns (r: Result<string>)
      ensures r == RunSpec(alphabet.items, alphabet.dimensions, key, orientation, input, true, true)
      ensures alphabet.dimensions.x >= 0 && alphabet.dimensions.y >= 0 ==>
        r == RunSpec(alphabet.items, alphabet.dimensions, key, orientation, input, true, false)
      ensures (Grid(alphabet.items, alphabet.dimensions) &&
        (forall c :: c in key ==> c in alphabet.items) && (forall c :: c in input ==> c in alphabet.items)) ==>
        r.Success? && RunSpec(alphabet.items, alphabet.dimensions, key, orientation, r.value, false, false)
          == Padded(alphabet.items, input)
    {
      r := Run(input, true);
      if alphabet.dimensions.x >= 0 && alphabet.dimensions.y >= 0 {
        RunForwardAgrees(alphabet.items, alphabet.dimensions, key, orientation, input);
      }
      if Grid(alphabet.items, alphabet.dimensions) &&
        (forall c :: c in key ==> c in alphabet.items) && (forall c :: c in input ==> c in alphabet.items) {
        RunRoundTrip(alphabet.items, alphabet.dimensions, key, orientation, input);
      }
    }

    /** Decrypt(input): Run backward, through Limit as written; a shift off
        the first row or column leaves -1 (see LimitBreaksDecrypt). */
    method Decrypt(input: string) returns (r: Result<string>)
      ensures r == RunSpec(alphabet.items, alphabet.dimensions, key, orientation, input, false, true)
    {
      r := Run(input, false);
    }

    /** Hack(input): refused before a dictionary is loaded; otherwise each
        key of the key dictionary is set as the key, the input deciphered
        and the output kept when it passes the language check. The key is
        restored however the loop ends. */
    method Hack(input: string) returns (r: Result<seq<Classical.AttackPossibility>>)
      modifies this
      ensures key == old(key) && alphabet == old(alphabet) && orientation == old(orientation) && attacker == old(attacker)
      ensures !attacker.dictLoaded ==> r == Failure(InvalidOperation("Dictionary not loaded"))
      ensures attacker.dictLoaded ==> r == HackSpec(attacker.keyDictionary, attacker.languageDictionary,
        alphabet.items, alphabet.dimensions, orientation, input)
    {
      var storedKey := key;
      if !attacker.dictLoaded {
        return Failure(InvalidOperation("Dictionary not loaded"));
      }
      var keys := attacker.keyDictionary;
      ghost var lang, items, bounds := attacker.languageDictionary, alphabet.items, alphabet.dimensions;
      var result := [];
      for i := 0 to |keys|
        invariant alphabet == old(alphabet) && orientation == old(orientation) && attacker == old(attacker)
        invariant lang == attacker.languageDictionary && items == alphabet.items && bounds == alphabet.dimensions
        invariant HackSpec(keys[..i], lang, items, bounds, orientation, input) == Success(result)
      {
        key := keys[i];
        var output := Decrypt(input);
        HackSnoc(keys[..i], keys[i], lang, items, bounds, orientation, input);
        PrefixSnoc(keys, i);
        if output.Failure? {
          key := storedKey;
          HackStops(keys, lang, items, bounds, orientation, input, i + 1);
          return Failure(output.error);
        }
        var found := attacker.CheckDictionary(output.value);
        if found {
          result := result + [Classical.AttackPossibility(keys[i], output.value)];
        } else {
          assert result + [] == result;
        }
      }
      key := storedKey;
      assert keys[..|keys|] == keys;
      return Success(result);
    }
  }

  /** The key loop of Run: each distinct key character moved, in turn, to
      the next index of the key table. */
  method MoveKey(keytable: Alphabet, distinct: seq<char>) returns (err: Option<Exception>)
    modifies keytable
    ensures keytable.dimensions == old(keytable.dimensions)
    ensures err.None? ==> KeyTable(old(keytable.items), distinct) == Success(keytable.items)
    ensures err.Some? ==> KeyTable(old(keytable.items), distinct) == Failure(err.value)
  {
    for i := 0 to |distinct|
      invariant KeyTable(old(keytable.items), distinct[..i]) == Success(keytable.items)
      invariant keytable.dimensions == old(keytable.dimensions)
    {
      KeyTableNext(old(keytable.items), distinct, i);
      err := keytable.Move(distinct[i], i);
      if err.Some? {
        KeyTableStops(old(keytable.items), distinct, i + 1);
        return;
      }
    }
    assert distinct[..|distinct|] == distinct;
    return None;
  }

  /** One more key character of the key table. */
  lemma KeyTableNext(items: seq<char>, keys: seq<char>, i: nat)
    requires i < |keys|
    ensures var prev := KeyTable(items, keys[..i]);
      KeyTable(items, keys[..i + 1]) ==
        if prev.Failure? then prev
        else if keys[i] !in prev.value then Failure(NullReference)
        else if i >= |prev.value| then Failure(ArgumentOutOfRange)
        else Success(Collections.Moved(prev.value, IndexOf(prev.value, keys[i]), i))
  {
    assert keys[..i + 1][..i] == keys[..i];
  }

  /** A key table that fails on a prefix of the keys fails the same way on
      all of them. */
  lemma {:induction false} KeyTableStops(items: seq<char>, keys: seq<char>, n: nat)
    requires n <= |keys| && KeyTable(items, keys[..n]).Failure?
    ensures KeyTable(items, keys) == KeyTable(items, keys[..n])
    decreases |keys| - n
  {
    if n < |keys| {
      assert keys[..n + 1][..n] == keys[..n];
      KeyTableStops(items, keys, n + 1);
    } else {
      assert keys[..n] == keys;
    }
  }

  /** One more digraph of the loop. */
  lemma DigraphsNext(table: seq<char>, bounds: Dimensions, orientation: Orientation, text: string,
                     forward: bool, asWritten: bool, i: nat)
    requires i + 2 <= |text| && i % 2 == 0
    ensures var prev := Digraphs(table, bounds, orientation, text[..i], forward, asWritten);
      var pair := Digraph(table, bounds, orientation, text[i], text[i + 1], forward, asWritten);
      Digraphs(table, bounds, orientation, text[..i + 2], forward, asWritten) ==
        if prev.Failure? then prev
        else if pair.Failure? then Failure(pair.error)
        else Success(prev.value + pair.value)
  {
    assert text[..i + 2][..i] == text[..i];
  }

  /** Between two even numbers there is room for a whole digraph. */
  lemma EvenGap(i: int, n: int)
    requires 0 <= i < n && i % 2 == 0 && n % 2 == 0
    ensures i + 2 <= n
  {
    ModShift(i, 2, 1);
  }

  /** Ciphering that fails on a prefix of the text fails the same way on the
      whole text. */
  lemma {:induction false} DigraphsStop(table: seq<char>, bounds: Dimensions, orientation: Orientation, text: string,
                                        forward: bool, asWritten: bool, n: nat)
    requires n <= |text| && n % 2 == 0 && |text| % 2 == 0
    requires Digraphs(table, bounds, orientation, text[..n], forward, asWritten).Failure?
    ensures Digraphs(table, bounds, orientation, text, forward, asWritten) ==
      Digraphs(table, bounds, orientation, text[..n], forward, asWritten)
    decreases |text|
  {
    if n < |text| {
      EvenGap(n, |text|);
      var front := text[..|text| - 2];
      assert front[..n] == text[..n];
      DigraphsStop(table, bounds, orientation, front, forward, asWritten, n);
    } else {
      assert text[..n] == text;
    }
  }


  /** An attack that fails on a prefix of the keys fails the same way on all
      of them. */
  lemma {:induction false} HackStops(keys: seq<string>, lang: seq<string>, items: seq<char>, bounds: Dimensions,
                                     orientation: Orientation, input: string, n: nat)
    requires n <= |keys| && HackSpec(keys[..n], lang, items, bounds, orientation, input).Failure?
    ensures HackSpec(keys, lang, items, bounds, orientation, input) == HackSpec(keys[..n], lang, items, bounds, orientation, input)
    decreases |keys| - n
  {
    if n < |keys| {
      PrefixSnoc(keys, n);
      HackSnoc(keys[..n], keys[n], lang, items, bounds, orientation, input);
      HackStops(keys, lang, items, bounds, orientation, input, n + 1);
    } else {
      assert keys[..n] == keys;
    }
  }
}
