/** The plugboard: socket pairs that swap two letters on their way into or
    out of the machine, held in a dictionary from each letter of a pair to
    the other. */
module Plugboards {
  import opened Wrappers

  const AlreadyPaired := InvalidOperation("A character in the pair is already paired to a different character")

  /** Every letter is paired back by its partner: the dictionary describes
      swaps and nothing else. */
  predicate Involutive(pairs: map<char, char>)
  {
    forall x :: x in pairs ==> pairs[x] in pairs && pairs[pairs[x]] == x
  }

  /** Simulate(input): the partner of a plugged letter, any other letter
      itself. */
  function Swapped(pairs: map<char, char>, c: char): char
  {
    if c in pairs then pairs[c] else c
  }

  /** On a board of pairs, simulating twice gives the letter back. */
  lemma SwappedInvolution(pairs: map<char, char>, c: char)
    requires Involutive(pairs)
    ensures Swapped(pairs, Swapped(pairs, c)) == c
  {
    if c in pairs {
      assert pairs[c] in pairs;
    }
  }

  /** AddSocketPair(x, y) as written: only x is checked. A fresh x is
      entered with y, then y with x; Dictionary.Add throws ArgumentException
      when y is already a key (including y == x), after x's entry is made. */
  function PlugAsWritten(pairs: map<char, char>, x: char, y: char): (r: (map<char, char>, Option<Exception>))
    ensures x in pairs ==> r.0 == pairs
    ensures r.1.None? ==> Swapped(r.0, x) == y
    ensures r.1.None? && Involutive(pairs) ==> Swapped(r.0, y) == x
  {
    if x in pairs then
      if pairs[x] == y then (pairs, None) else (pairs, Some(AlreadyPaired))
    else
      var added := pairs[x := y];
      if y in added then (added, Some(Argument)) else (added[y := x], None)
  }

  /** With y already plugged to another letter, the guard lets x through and
      the board keeps x -> y without y -> x: simulating x twice no longer
      gives x back. */
  lemma PlugAsWrittenBreaks(pairs: map<char, char>)
    requires pairs == map['B' := 'C', 'C' := 'B']
    ensures Involutive(pairs)
    ensures var (board, err) := PlugAsWritten(pairs, 'A', 'B');
      err == Some(Argument) && !Involutive(board) && Swapped(board, Swapped(board, 'A')) == 'C'
  {
    var board := PlugAsWritten(pairs, 'A', 'B').0;
    assert board == pairs['A' := 'B'];
    assert board['A'] == 'B' && board['B'] == 'C';
  }

  /** AddSocketPair(x, y) with both letters checked before anything
      changes: an existing pair x-y is left alone; a letter paired elsewhere
      is refused with InvalidOperationException, and a letter paired with
      itself with ArgumentException; otherwise both entries are made. */
  function Plug(pairs: map<char, char>, x: char, y: char): (r: (map<char, char>, Option<Exception>))
    ensures r.1.Some? ==> r.0 == pairs
    ensures r.1.None? <==> (x in pairs && pairs[x] == y) || (x !in pairs && y !in pairs && x != y)
    ensures r.1.None? ==> Swapped(r.0, x) == y
    ensures r.1.None? && Involutive(pairs) ==> Swapped(r.0, y) == x
    ensures r.1.None? ==> forall c :: c != x && c != y ==> Swapped(r.0, c) == Swapped(pairs, c)
  {
    if x in pairs then
      if pairs[x] == y then (pairs, None) else (pairs, Some(AlreadyPaired))
    else if y in pairs then (pairs, Some(AlreadyPaired))
    else if x == y then (pairs, Some(Argument))
    else (pairs[x := y][y := x], None)
  }

  /** Adding a pair keeps a board of pairs a board of pairs. */
  lemma PlugInvolutive(pairs: map<char, char>, x: char, y: char)
    requires Involutive(pairs)
    ensures Involutive(Plug(pairs, x, y).0)
  {
    var board := Plug(pairs, x, y).0;
    if x !in pairs && y !in pairs && x != y {
      forall c | c in board
        ensures board[c] in board && board[board[c]] == c
      {
        if c != x && c != y {
          assert pairs[c] != x && pairs[c] != y;
        }
      }
    }
  }

  /** Where it succeeds, AddSocketPair as written does what the checked
      version does, and it succeeds on exactly the same calls: the two part
      only on the board they leave behind an exception. */
  lemma {:induction false} PlugAgrees(pairs: map<char, char>, x: char, y: char)
    ensures PlugAsWritten(pairs, x, y).1.None? <==> Plug(pairs, x, y).1.None?
    ensures PlugAsWritten(pairs, x, y).1.None? ==> PlugAsWritten(pairs, x, y).0 == Plug(pairs, x, y).0
  {
    if x !in pairs {
      assert y in pairs[x := y] <==> y in pairs || y == x;
    }
  }

  /** RemoveSocketPair(c): a plugged letter's partner and then the letter
      itself are taken off; an unplugged letter changes nothing. */
  function Unplug(pairs: map<char, char>, c: char): (r: map<char, char>)
    ensures c !in r && r.Keys <= pairs.Keys
    ensures c in pairs ==> pairs[c] !in r
    ensures c !in pairs ==> r == pairs
    ensures forall d :: d in r ==> r[d] == pairs[d]
  {
    if c in pairs then pairs - {pairs[c]} - {c} else pairs
  }

  /** Removing a pair keeps a board of pairs a board of pairs, and the
      letters it swapped then pass straight through. */
  lemma UnplugInvolutive(pairs: map<char, char>, c: char)
    requires Involutive(pairs)
    ensures Involutive(Unplug(pairs, c))
    ensures Swapped(Unplug(pairs, c), c) == c
    ensures c in pairs ==> Swapped(Unplug(pairs, c), pairs[c]) == pairs[c]
  {
    var board := Unplug(pairs, c);
    forall d | d in board
      ensures board[d] in board && board[board[d]] == d
    {
      assert pairs[d] in pairs && pairs[pairs[d]] == d;
    }
  }

  /** Unplugging a pair just added gives the board back. */
  lemma PlugUnplug(pairs: map<char, char>, x: char, y: char)
    requires Involutive(pairs) && x !in pairs && y !in pairs && x != y
    ensures Unplug(Plug(pairs, x, y).0, x) == pairs
  {
    var board := Plug(pairs, x, y).0;
    assert board == pairs[x := y][y := x];
    assert Unplug(board, x) == board - {y} - {x};
  }

  /** A plugboard. */
  class Plugboard {
    var socketPairs: map<char, char>

    /** Plugboard(): no pairs. */
    constructor()
      ensures socketPairs == map[]
    {
      socketPairs := map[];
    }

    /** Simulate(input). */
    function Simulate(c: char): (r: char)
      reads this
      ensures Involutive(socketPairs) ==> Swapped(socketPairs, r) == c
    {
      var r := Swapped(socketPairs, c);
      assert Involutive(socketPairs) ==> Swapped(socketPairs, r) == c by {
        if Involutive(socketPairs) {
          SwappedInvolution(socketPairs, c);
        }
      }
      r
    }

    /** AddSocketPair(x, y): only x is checked; y is entered after x, so a
        y that is already a key throws with x -> y left on the board. */
    method AddSocketPair(x: char, y: char) returns (err: Option<Exception>)
      modifies this
      ensures (socketPairs, err) == PlugAsWritten(old(socketPairs), x, y)
      ensures err.None? && Involutive(old(socketPairs)) ==> Involutive(socketPairs)
    {
      PlugAgrees(socketPairs, x, y);
      if Involutive(socketPairs) {
        PlugInvolutive(socketPairs, x, y);
      }
      if x in socketPairs {
        if socketPairs[x] == y {
          return None;
        }
        return Some(AlreadyPaired);
      }
      socketPairs := socketPairs[x := y];
      if y in socketPairs {
        return Some(Argument);
      }
      socketPairs := socketPairs[y := x];
      err := None;
    }

    /** RemoveSocketPair(pairItem). */
    method RemoveSocketPair(pairItem: char)
      modifies this
      ensures socketPairs == Unplug(old(socketPairs), pairItem)
      ensures Involutive(old(socketPairs)) ==> Involutive(socketPairs)
    {
      if Involutive(socketPairs) {
        UnplugInvolutive(socketPairs, pairItem);
      }
      if pairItem in socketPairs {
        var other := socketPairs[pairItem];
        socketPairs := socketPairs - {other};
        socketPairs := socketPairs - {pairItem};
      }
    }
  }
}
