/** The alphabet of the grid ciphers and the Enigma machine: an ordered
    list of distinct characters with grid dimensions. Adding or inserting a
    character already present changes nothing, so the list stays a set; the
    dimensions turn list indices into (column, row) positions. */
module Alphabets {
  import opened Wrappers
  import opened Text
  import opened Arith
  import Collections
  import opened GlobalExtensions

  /** Dimensions: a count of columns X and of rows Y, or a position (X, Y). */
  datatype Dimensions = Dimensions(x: int, y: int)

  /** Dimensions.Equals (and ==): equal X and equal Y. */
  function Equals(a: Dimensions, b: Dimensions): (r: bool)
    ensures r <==> a == b
  {
    a.x == b.x && a.y == b.y
  }

  /** Dimensions.Limit(max_x, max_y): `X %= max_x; Y %= max_y` with the C#
      remainder, which keeps the sign of the dividend; a zero bound throws
      DivideByZeroException. A coordinate already in range is kept, but -1
      stays -1 instead of wrapping to max - 1. */
  function Limit(d: Dimensions, maxX: int, maxY: int): (r: Result<Dimensions>)
    ensures maxX == 0 || maxY == 0 ==> r == Failure(DivideByZero)
    ensures maxX > 0 && maxY > 0 ==> r.Success?
    ensures maxX > 0 && maxY > 0 ==>
      (d.x >= 0 ==> 0 <= r.value.x < maxX) && (d.x < 0 ==> -maxX < r.value.x <= 0) &&
      (d.y >= 0 ==> 0 <= r.value.y < maxY) && (d.y < 0 ==> -maxY < r.value.y <= 0) &&
      (-maxX < d.x < 0 ==> r.value.x == d.x) && (-maxY < d.y < 0 ==> r.value.y == d.y)
  {
    if maxX == 0 || maxY == 0 then Failure(DivideByZero)
    else
      assert maxX > 0 && maxY > 0 ==>
        (d.x >= 0 ==> 0 <= TruncMod(d.x, maxX) < maxX) && (d.x < 0 ==> -maxX < TruncMod(d.x, maxX) <= 0) &&
        (d.y >= 0 ==> 0 <= TruncMod(d.y, maxY) < maxY) && (d.y < 0 ==> -maxY < TruncMod(d.y, maxY) <= 0) &&
        (-maxX < d.x < 0 ==> TruncMod(d.x, maxX) == d.x) && (-maxY < d.y < 0 ==> TruncMod(d.y, maxY) == d.y) by {
        if maxX > 0 && maxY > 0 {
          TruncModRange(d.x, maxX);
          TruncModRange(d.y, maxY);
        }
      }
      Success(Dimensions(TruncMod(d.x, maxX), TruncMod(d.y, maxY)))
  }

  /** Limit as the wrap-around it is used for: the Euclidean remainder, so
      every coordinate lands in range and -1 becomes max - 1. */
  function Wrap(d: Dimensions, maxX: int, maxY: int): (r: Result<Dimensions>)
    ensures maxX == 0 || maxY == 0 ==> r == Failure(DivideByZero)
    ensures maxX > 0 && maxY > 0 ==> r.Success? && 0 <= r.value.x < maxX && 0 <= r.value.y < maxY
    ensures maxX > 0 && maxY > 0 ==> (r.value.x - d.x) % maxX == 0 && (r.value.y - d.y) % maxY == 0
  {
    if maxX == 0 || maxY == 0 then Failure(DivideByZero)
    else
      assert maxX > 0 && maxY > 0 ==> (d.x % maxX - d.x) % maxX == 0 && (d.y % maxY - d.y) % maxY == 0 by {
        if maxX > 0 && maxY > 0 {
          ModUnique(d.x % maxX - d.x, maxX, -(d.x / maxX), 0);
          ModUnique(d.y % maxY - d.y, maxY, -(d.y / maxY), 0);
        }
      }
      Success(Dimensions(d.x % maxX, d.y % maxY))
  }

  /** Limit and the wrap-around agree on coordinates that are not negative,
      and differ on -1 whenever the bound is above 1. */
  lemma LimitWrapAgree(d: Dimensions, maxX: int, maxY: int)
    requires maxX > 0 && maxY > 0
    ensures d.x >= 0 && d.y >= 0 ==> Limit(d, maxX, maxY) == Wrap(d, maxX, maxY)
    ensures d.x == -1 && maxX > 1 ==> Limit(d, maxX, maxY).value.x == -1 != Wrap(d, maxX, maxY).value.x
  {
  }

  // ---------------------------------------------------------------------
  // The list operations, as functions of the item list

  /** Add: the item appended unless it is already there. */
  function Added(s: seq<char>, c: char): seq<char>
  {
    if c in s then s else s + [c]
  }

  /** AddAll: each character added in turn. */
  function AddedAll(s: seq<char>, chars: seq<char>): seq<char>
  {
    if chars == [] then s else Added(AddedAll(s, chars[..|chars| - 1]), chars[|chars| - 1])
  }

  /** AddAll appends to the list the characters of chars that are new to it,
      once each, in the order they first occur. */
  lemma {:induction false} AddedAllAppends(s: seq<char>, chars: seq<char>)
    ensures AddedAll(s, chars) == s + Except(Dedup(chars), s)
  {
    if chars != [] {
      var front, c := chars[..|chars| - 1], chars[|chars| - 1];
      AddedAllAppends(s, front);
      assert Dedup(chars) == if c in Dedup(front) then Dedup(front) else Dedup(front) + [c];
      if c !in Dedup(front) {
        ExceptAppend(Dedup(front), [c], s);
      }
    }
  }

  /** Adding keeps the items distinct. */
  lemma AddedAllDistinct(s: seq<char>, chars: seq<char>)
    requires Distinct(s)
    ensures Distinct(AddedAll(s, chars))
    ensures forall x :: x in AddedAll(s, chars) <==> x in s || x in chars
  {
    AddedAllAppends(s, chars);
    var e := Except(Dedup(chars), s);
    ExceptDistinct(Dedup(chars), s);
    forall i, j | 0 <= i < j < |s + e|
      ensures (s + e)[i] != (s + e)[j]
    {
      if i < |s| && j >= |s| {
        assert (s + e)[j] in e;
      }
    }
  }

  /** Remove: the first occurrence deleted, if any. */
  function Removed(s: seq<char>, c: char): seq<char>
  {
    if c in s then s[..IndexOf(s, c)] + s[IndexOf(s, c) + 1..] else s
  }

  /** RemoveAll: each character removed in turn. */
  function RemovedAll(s: seq<char>, chars: seq<char>): seq<char>
  {
    if chars == [] then s else Removed(RemovedAll(s, chars[..|chars| - 1]), chars[|chars| - 1])
  }

  /** In a list of distinct items removing c removes every c. */
  lemma RemovedDistinct(s: seq<char>, c: char)
    requires Distinct(s)
    ensures Removed(s, c) == Without(s, c)
  {
    if c in s {
      var k := IndexOf(s, c);
      assert s == s[..k] + [c] + s[k + 1..];
      assert c !in s[k + 1..] by {
        forall m | k + 1 <= m < |s|
          ensures s[m] != c
        {
          assert s[k] == c;
        }
      }
      WithoutAppend(s[..k] + [c], s[k + 1..], c);
      WithoutAppend(s[..k], [c], c);
      assert Without([c], c) == [];
    }
  }

  /** On a list of distinct items RemoveAll keeps exactly the items that are
      not in chars, in order. */
  lemma {:induction false} RemovedAllExcept(s: seq<char>, chars: seq<char>)
    requires Distinct(s)
    ensures RemovedAll(s, chars) == Except(s, chars)
    ensures Distinct(RemovedAll(s, chars))
  {
    if chars == [] {
      ExceptNothing(s, []);
    } else {
      var front, c := chars[..|chars| - 1], chars[|chars| - 1];
      assert chars == front + [c];
      var kept := Except(s, front);
      RemovedAllExcept(s, front);
      assert RemovedAll(s, chars) == Removed(kept, c);
      ExceptDistinct(s, front);
      RemovedDistinct(kept, c);
      ExceptSnoc(s, front, c);
      assert Removed(kept, c) == Except(s, chars);
      WithoutDistinct(kept, c);
    }
  }

  /** Dropping one more character is deleting it from what was kept. */
  lemma {:induction false} ExceptSnoc(s: seq<char>, drop: seq<char>, c: char)
    ensures Except(s, drop + [c]) == Without(Except(s, drop), c)
  {
    if s != [] {
      var t, z := s[..|s| - 1], s[|s| - 1];
      ExceptSnoc(t, drop, c);
      assert s == t + [z];
      WithoutAppend(Except(t, drop), [z], c);
    }
  }

  /** The alphabet, stored as its list of characters and its dimensions. */
  class Alphabet {
    var items: seq<char>
    var dimensions: Dimensions

    /** Alphabet(): empty, with zero dimensions. */
    constructor()
      ensures items == [] && dimensions == Dimensions(0, 0)
    {
      items := [];
      dimensions := Dimensions(0, 0);
    }

    /** Alphabet(characters): the characters added one by one, so the
        repeats dropped. */
    constructor FromString(characters: string)
      ensures items == Dedup(characters) && dimensions == Dimensions(0, 0)
    {
      items := [];
      dimensions := Dimensions(0, 0);
      new;
      var added := AddAll(characters);
      AddedAllAppends([], characters);
      ExceptNothing(Dedup(characters), []);
    }

    /** The characters stay distinct. */
    predicate Valid()
      reads this
    {
      Distinct(items)
    }

    /** Contains(item). */
    predicate Contains(c: char)
      reads this
    {
      c in items
    }

    /** IndexOf(item): the first index of the character, or -1 exactly when
        the alphabet does not contain it. */
    function IndexOf(c: char): (r: int)
      reads this
      ensures r == -1 <==> !Contains(c)
      ensures r >= 0 ==> r < |items| && items[r] == c
    {
      Text.IndexOf(items, c)
    }

    /** Add(item): false and no change when present, otherwise appended. */
    method Add(c: char) returns (added: bool)
      modifies this
      ensures added <==> c !in old(items)
      ensures items == Added(old(items), c) && dimensions == old(dimensions)
      ensures old(Valid()) ==> Valid()
    {
      if c in items {
        return false;
      }
      items := items + [c];
      return true;
    }

    /** Insert(index, item): nothing when present; otherwise List.Insert,
        which throws ArgumentOutOfRangeException for an index outside
        0..Count. */
    method Insert(index: int, c: char) returns (err: Option<Exception>)
      modifies this
      ensures c in old(items) ==> items == old(items) && err == None
      ensures c !in old(items) && 0 <= index <= |old(items)| ==>
        items == old(items)[..index] + [c] + old(items)[index..] && err == None
      ensures c !in old(items) && !(0 <= index <= |old(items)|) ==>
        items == old(items) && err == Some(ArgumentOutOfRange)
      ensures dimensions == old(dimensions)
      ensures old(Valid()) ==> Valid()
    {
      if c in items {
        return None;
      }
      if !(0 <= index <= |items|) {
        return Some(ArgumentOutOfRange);
      }
      items := items[..index] + [c] + items[index..];
      err := None;
      assert forall x :: x in items <==> x in old(items) || x == c;
    }

    /** Remove(item): true and the first occurrence deleted when present. */
    method Remove(c: char) returns (removed: bool)
      modifies this
      ensures removed <==> c in old(items)
      ensures items == Removed(old(items), c) && dimensions == old(dimensions)
    {
      var index := Text.IndexOf(items, c);
      if index == -1 {
        return false;
      }
      items := items[..index] + items[index + 1..];
      return true;
    }

    /** RemoveAt(index): List.RemoveAt, ArgumentOutOfRangeException for an
        index outside the list. */
    method RemoveAt(index: int) returns (err: Option<Exception>)
      modifies this
      ensures 0 <= index < |old(items)| ==> items == old(items)[..index] + old(items)[index + 1..] && err == None
      ensures !(0 <= index < |old(items)|) ==> items == old(items) && err == Some(ArgumentOutOfRange)
      ensures dimensions == old(dimensions)
      ensures old(Valid()) ==> Valid()
    {
      if !(0 <= index < |items|) {
        return Some(ArgumentOutOfRange);
      }
      items := items[..index] + items[index + 1..];
      err := None;
      assert forall x :: x in items ==> x in old(items);
    }

    /** Clear(): no characters left. */
    method Clear()
      modifies this
      ensures items == [] && dimensions == old(dimensions)
      ensures Valid()
    {
      items := [];
    }

    /** this[index] get: the character at the index, ArgumentOutOfRangeException
        outside the list. */
    function Get(index: int): (r: Result<char>)
      reads this
      ensures 0 <= index < |items| ==> r == Success(items[index]) && IndexOf(r.value) <= index
      ensures !(0 <= index < |items|) ==> r == Failure(ArgumentOutOfRange)
    {
      if 0 <= index < |items| then Success(items[index]) else Failure(ArgumentOutOfRange)
    }

    /** this[index] set: the setter writes the list directly, with no check
        for a character that is already elsewhere in it. */
    method Set(index: int, c: char) returns (err: Option<Exception>)
      modifies this
      ensures 0 <= index < |old(items)| ==> items == old(items)[index := c] && err == None
      ensures !(0 <= index < |old(items)|) ==> items == old(items) && err == Some(ArgumentOutOfRange)
      ensures dimensions == old(dimensions)
      ensures old(Valid()) && c !in old(items) ==> Valid()
    {
      if !(0 <= index < |items|) {
        return Some(ArgumentOutOfRange);
      }
      items := items[index := c];
      err := None;
    }

    /** AddAll(characters): every character added in turn; the count of
        those actually added. */
    method AddAll(chars: seq<char>) returns (added: int)
      modifies this
      ensures items == AddedAll(old(items), chars) && dimensions == old(dimensions)
      ensures added == |items| - |old(items)|
    {
      added := 0;
      for i := 0 to |chars|
        invariant items == AddedAll(old(items), chars[..i]) && dimensions == old(dimensions)
        invariant added == |items| - |old(items)|
      {
        assert chars[..i + 1][..i] == chars[..i];
        var ok := Add(chars[i]);
        if ok {
          added := added + 1;
        }
      }
      assert chars[..|chars|] == chars;
    }

    /** RemoveAll(characters): every character removed in turn; the count of
        those actually removed. */
    method RemoveAll(chars: seq<char>) returns (removed: int)
      modifies this
      ensures items == RemovedAll(old(items), chars) && dimensions == old(dimensions)
      ensures removed == |old(items)| - |items|
    {
      removed := 0;
      for i := 0 to |chars|
        invariant items == RemovedAll(old(items), chars[..i]) && dimensions == old(dimensions)
        invariant removed == |old(items)| - |items|
      {
        assert chars[..i + 1][..i] == chars[..i];
        var ok := Remove(chars[i]);
        if ok {
          removed := removed + 1;
        }
      }
      assert chars[..|chars|] == chars;
    }

    /** Rotate(offset): the list rotated by List.Rotate as written, which
        turns a negative offset one place further than asked. */
    method Rotate(offset: int) returns (err: Option<Exception>)
      modifies this
      ensures old(items) != [] && offset >= 0 ==> items == Collections.Rotated(old(items), offset) && err == None
      ensures old(items) != [] && offset < 0 ==> items == Collections.Rotated(old(items), offset - 1) && err == None
      ensures old(items) == [] ==> items == [] && err == (if offset == 0 then None else Some(ArgumentOutOfRange))
      ensures dimensions == old(dimensions)
    {
      var r := Collections.RotateAsWritten(items, offset);
      if r.Failure? {
        return Some(r.error);
      }
      items := r.value;
      err := None;
    }

    /** Move(item, newIndex): the character moved to newIndex; one that is
        not in the alphabet throws NullReferenceException, and a bad newIndex
        throws after the character has been removed. */
    method Move(c: char, newIndex: int) returns (err: Option<Exception>)
      modifies this
      ensures c !in old(items) ==> items == old(items) && err == Some(NullReference)
      ensures c in old(items) && !(0 <= newIndex < |old(items)|) ==>
        items == old(items)[..Text.IndexOf(old(items), c)] + old(items)[Text.IndexOf(old(items), c) + 1..] &&
        err == Some(ArgumentOutOfRange)
      ensures c in old(items) && 0 <= newIndex < |old(items)| ==>
        items == Collections.Moved(old(items), Text.IndexOf(old(items), c), newIndex) && err == None
      ensures dimensions == old(dimensions)
    {
      var r;
      r, err := Collections.MoveItem(items, c, newIndex);
      items := r;
    }

    /** AutoDimensions(): root x root for a perfect-square count, otherwise
        the largest prime factor of the count times the count divided by it;
        either way the grid holds exactly the characters. The count of a
        .NET list is at most int.MaxValue. */
    method AutoDimensions()
      requires |items| <= I32Max
      modifies this
      ensures items == old(items)
      ensures IsPerfectSquare(|items|) ==> dimensions == Dimensions(Isqrt(|items|), Isqrt(|items|))
      ensures !IsPerfectSquare(|items|) ==>
        IsLargestPrimeFactor(|items|, dimensions.x) && dimensions.y == |items| / dimensions.x
      ensures dimensions.x > 0 || |items| == 0
      ensures dimensions.x * dimensions.y == |items|
    {
      var count := |items|;
      if IsPerfectSquare(count) {
        var root := Isqrt(count);
        dimensions := Dimensions(root, root);
        return;
      }
      assert count >= 2;
      var factor := MaxFactor(count as ulong);
      DivMod(count, factor);
      dimensions := Dimensions(factor, count / factor);
    }

    /** WrapChar(item, steps): the character steps places on from item,
        wrapping around (the sum index + steps is a 32-bit int); a character
        not in the alphabet throws InvalidOperationException. */
    method WrapChar(c: char, steps: int32) returns (r: Result<char>)
      requires |items| <= I32Max
      ensures c !in items ==> r == Failure(InvalidOperation("Character not found in alphabet"))
      ensures c in items ==> r == Success(Wrapped(items, c, steps))
    {
      var index := IndexOf(c);
      if index == -1 {
        return Failure(InvalidOperation("Character not found in alphabet"));
      }
      var count := |items|;
      var start := AddInt32(index, steps);
      index := start;
      while index >= count
        invariant index % count == start % count
        decreases index
      {
        ModShift(index - count, count, 1);
        index := index - count;
      }
      while index < 0
        invariant index < count && index % count == start % count
        decreases -index
      {
        ModShift(index, count, 1);
        index := index + count;
      }
      ModUnique(index, count, 0, index);
      return Success(items[index]);
    }
  }

  /** The character steps places on from c, wrapping around the list;
      the sum of index and steps is a 32-bit int. */
  function Wrapped(items: seq<char>, c: char, steps: int32): (r: char)
    requires c in items && |items| <= I32Max
    ensures r in items
  {
    items[AddInt32(IndexOf(items, c), steps) % |items|]
  }

  /** WrapChar by steps then by -steps gives back the character, in an
      alphabet of distinct characters and without 32-bit overflow. */
  lemma WrapInverse(items: seq<char>, c: char, steps: int32)
    requires Distinct(items) && c in items && |items| <= 0x4000_0000
    requires -0x4000_0000 <= steps <= 0x4000_0000
    ensures Wrapped(items, Wrapped(items, c, steps), -steps) == c
  {
    var n := |items|;
    var i := IndexOf(items, c);
    var j := StepBack(i, steps, n);
    IndexOfDistinct(items, j);
    assert Wrapped(items, c, steps) == items[j];
  }

  /** Stepping forward by k and back by k returns to the residue. */
  lemma StepBack(i: int, k: int, n: int) returns (j: int)
    requires 0 <= i < n
    ensures j == (i + k) % n && 0 <= j < n && (j - k) % n == i
  {
    var q := (i + k) / n;
    j := (i + k) % n;
    DivMod(i + k, n);
    assert (-q) * n == -(q * n);
    ModUnique(j - k, n, -q, i);
  }

  // ---------------------------------------------------------------------
  // Grid coordinates of an alphabet with dimensions d

  /** DimensionsOf(item): column index % X and row index / X (the C#
      operators; the index is never negative); a character not in the
      alphabet throws NullReferenceException and X == 0 divides by zero. */
  function DimensionsOf(items: seq<char>, d: Dimensions, c: char): (r: Result<Dimensions>)
    ensures c !in items ==> r == Failure(NullReference)
    ensures c in items && d.x == 0 ==> r == Failure(DivideByZero)
    ensures c in items && d.x > 0 ==> r.Success?
    ensures c in items && d.x > 0 ==>
      0 <= r.value.x < d.x && d.x * r.value.y + r.value.x == IndexOf(items, c)
  {
    var index := IndexOf(items, c);
    if index == -1 then Failure(NullReference)
    else if d.x == 0 then Failure(DivideByZero)
    else
      assert d.x > 0 ==> d.x * TruncDiv(index, d.x) + TruncMod(index, d.x) == index by {
        if d.x > 0 {
          DivMod(index, d.x);
        }
      }
      Success(Dimensions(TruncMod(index, d.x), TruncDiv(index, d.x)))
  }

  /** GetDimensionalIndex(x, y): X * y + x, after refusing x > X and
      y >= Y with InvalidOperationException. */
  function GetDimensionalIndex(d: Dimensions, x: int, y: int): (r: Result<int>)
    ensures x > d.x ==> r == Failure(InvalidOperation("x greater than the dimension"))
    ensures x <= d.x && y >= d.y ==> r == Failure(InvalidOperation("y greater than the dimension"))
    ensures x <= d.x && y < d.y ==> r == Success(d.x * y + x)
  {
    if x > d.x then Failure(InvalidOperation("x greater than the dimension"))
    else if y >= d.y then Failure(InvalidOperation("y greater than the dimension"))
    else Success(d.x * y + x)
  }

  /** The indexer this[x, y]: the character at that index; an index outside
      the list throws ArgumentOutOfRangeException. */
  function CharAt(items: seq<char>, d: Dimensions, p: Dimensions): (r: Result<char>)
    ensures r.Success? ==> r.value in items
    ensures r.Success? <==>
      GetDimensionalIndex(d, p.x, p.y).Success? && 0 <= GetDimensionalIndex(d, p.x, p.y).value < |items|
  {
    var index :- GetDimensionalIndex(d, p.x, p.y);
    if 0 <= index < |items| then Success(items[index]) else Failure(ArgumentOutOfRange)
  }

  /** Every character of an alphabet that fits its grid has a position, and
      the position gives back its index and the character. */
  lemma DimensionsRoundTrip(items: seq<char>, d: Dimensions, c: char)
    requires c in items && d.x > 0 && |items| <= d.x * d.y
    ensures var p := DimensionsOf(items, d, c).value;
      GetDimensionalIndex(d, p.x, p.y) == Success(IndexOf(items, c)) &&
      CharAt(items, d, p) == Success(c)
  {
    var p := DimensionsOf(items, d, c).value;
    var i := IndexOf(items, c);
    if p.y >= d.y {
      MulMonotone(p.y, d.y, d.x);
    }
  }
}
