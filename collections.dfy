/** The list extensions the alphabets and rotors are built on: moving one item
    to another index and rotating a list, both editing the list step by step
    with RemoveAt / Insert / Add. A list is a sequence here; each method returns
    the list as the edits leave it. */
module Collections {
  import opened Wrappers
  import opened Text
  import opened Arith

  /** The list rotated by offset: it starts at the item offset places in,
      wrapping around (Euclidean %, so a negative offset rotates towards the
      tail). */
  function Rotated<T>(s: seq<T>, offset: int): (r: seq<T>)
    ensures |r| == |s|
  {
    if s == [] then [] else s[offset % |s|..] + s[..offset % |s|]
  }

  /** Item i of a rotation is the item offset places further on. */
  lemma RotatedAt<T>(s: seq<T>, offset: int, i: int)
    requires 0 <= i < |s|
    ensures Rotated(s, offset)[i] == s[(i + offset) % |s|]
  {
    ModAdd(i, offset, |s|);
  }

  /** Rotating back by the same offset undoes a rotation. */
  lemma RotatedInverse<T>(s: seq<T>, k: int)
    ensures Rotated(Rotated(s, k), -k) == s
  {
    if s != [] {
      var n, j := |s|, k % |s|;
      ModNeg(k, n);
      if j != 0 {
        var t := Rotated(s, k);
        assert t[n - j..] == s[..j];
        assert t[..n - j] == s[j..];
        assert s == s[..j] + s[j..];
      }
    }
  }

  /** A rotation only reorders: the length and the multiset of items are kept. */
  lemma RotatedMultiset<T>(s: seq<T>, k: int)
    ensures multiset(Rotated(s, k)) == multiset(s)
  {
    if s != [] {
      var j := k % |s|;
      assert s == s[..j] + s[j..];
    }
  }

  /** A rotation keeps the items it holds. */
  lemma RotatedMembers<T>(s: seq<T>, k: int)
    ensures forall x :: x in Rotated(s, k) <==> x in s
  {
    RotatedMultiset(s, k);
    assert forall x :: x in Rotated(s, k) <==> x in multiset(Rotated(s, k));
  }

  /** A rotation of distinct items has distinct items. */
  lemma RotatedDistinct<T>(s: seq<T>, k: int)
    requires Distinct(s)
    ensures Distinct(Rotated(s, k))
  {
    if s != [] {
      var n, j := |s|, k % |s|;
      var front, back := s[j..], s[..j];
      var r := front + back;
      assert r == Rotated(s, k);
      forall a, b | 0 <= a < b < n
        ensures r[a] != r[b]
      {
        var pa := if a < n - j then j + a else a - (n - j);
        var pb := if b < n - j then j + b else b - (n - j);
        assert r[a] == s[pa] by {
          if a < n - j { assert r[a] == front[a]; } else { assert r[a] == back[a - (n - j)]; }
        }
        assert r[b] == s[pb] by {
          if b < n - j { assert r[b] == front[b]; } else { assert r[b] == back[b - (n - j)]; }
        }
      }
    }
  }

  lemma RotatedZero<T>(s: seq<T>)
    ensures Rotated(s, 0) == s
  {
  }

  /** Moving the head to the tail of a list split at j splits it at j + 1. */
  lemma SplitHeadToTail<T>(s: seq<T>, j: int)
    requires 0 <= j < |s|
    ensures var c := s[j..] + s[..j]; c[1..] + [c[0]] == s[j + 1..] + s[..j + 1]
  {
    var c := s[j..] + s[..j];
    assert c[1..] == s[j + 1..] + s[..j];
    assert s[..j + 1] == s[..j] + [s[j]];
  }

  /** Moving the head to the tail advances a rotation by one. */
  lemma RotatedHeadToTail<T>(s: seq<T>, d: int)
    requires s != []
    ensures var c := Rotated(s, d); c[1..] + [c[0]] == Rotated(s, d + 1)
  {
    var n, j := |s|, d % |s|;
    ModNext(d, n);
    SplitHeadToTail(s, j);
    if j == n - 1 {
      assert s[n..] + s[..n] == s[0..] + s[..0];
    }
  }

  /** Moving the tail to the head moves a rotation back by one. */
  lemma RotatedTailToHead<T>(s: seq<T>, d: int)
    requires s != []
    ensures var c := Rotated(s, d); [c[|c| - 1]] + c[..|c| - 1] == Rotated(s, d - 1)
  {
    var n, j := |s|, d % |s|;
    ModPrev(d, n);
    var c := Rotated(s, d);
    var j' := (d - 1) % n;
    assert Rotated(s, d - 1) == s[j'..] + s[..j'];
    if j > 0 {
      assert j' == j - 1;
      assert c == s[j..] + s[..j];
      assert c[n - 1] == s[j - 1];
      assert c[..n - 1] == s[j..] + s[..j - 1];
      assert s[j - 1..] == [s[j - 1]] + s[j..];
    } else {
      assert j' == n - 1;
      assert c == s;
      assert s[n - 1..] == [s[n - 1]];
    }
  }

  /** Rotate, with the negative branch running |offset| times (offset < 0).
      The head is moved to the tail offset times when offset >= 0, the tail to
      the head otherwise; an empty list fails on its first access. */
  method Rotate<T>(list: seq<T>, offset: int) returns (r: Result<seq<T>>)
    ensures list == [] && offset != 0 ==> r == Failure(ArgumentOutOfRange)
    ensures list != [] || offset == 0 ==> r == Success(Rotated(list, offset))
  {
    var cur := list;
    RotatedZero(list);
    if offset >= 0 {
      var left := offset;
      while left > 0
        invariant 0 <= left <= offset
        invariant list != [] || left == offset
        invariant cur == Rotated(list, offset - left)
      {
        if cur == [] {
          return Failure(ArgumentOutOfRange);
        }
        RotatedHeadToTail(list, offset - left);
        var first := cur[0];
        cur := cur[1..] + [first];
        left := left - 1;
      }
    } else {
      var left := offset;
      while left < 0
        invariant offset <= left <= 0
        invariant list != [] || left == offset
        invariant cur == Rotated(list, offset - left)
      {
        if cur == [] {
          return Failure(ArgumentOutOfRange);
        }
        RotatedTailToHead(list, offset - left);
        var index := |cur| - 1;
        var last := cur[index];
        cur := [last] + cur[..index];
        left := left + 1;
      }
    }
    return Success(cur);
  }

  /** How many places List.Rotate as written turns a list: offset for a
      non-negative offset, one place further for a negative one. */
  function AsWrittenSteps(offset: int): int
  {
    if offset >= 0 then offset else offset - 1
  }

  /** Rotate exactly as the loop is written: for a negative offset the test
      `offset <= 0` lets the loop run |offset| + 1 times. */
  method RotateAsWritten<T>(list: seq<T>, offset: int) returns (r: Result<seq<T>>)
    ensures list == [] && offset != 0 ==> r == Failure(ArgumentOutOfRange)
    ensures list != [] && offset >= 0 ==> r == Success(Rotated(list, offset))
    ensures list != [] && offset < 0 ==> r == Success(Rotated(list, offset - 1))
    ensures list != [] || offset == 0 ==> r == Success(Rotated(list, AsWrittenSteps(offset)))
  {
    if offset >= 0 {
      r := Rotate(list, offset);
      return;
    }
    var cur := list;
    RotatedZero(list);
    var left := offset;
    while left <= 0
      invariant offset <= left <= 1
      invariant list != [] || left == offset
      invariant cur == Rotated(list, offset - left)
    {
      if cur == [] {
        return Failure(ArgumentOutOfRange);
      }
      RotatedTailToHead(list, offset - left);
      var index := |cur| - 1;
      var last := cur[index];
      cur := [last] + cur[..index];
      left := left + 1;
    }
    return Success(cur);
  }

  /** The as-written rotation by -1 differs from the rotation by -1: on
      [1, 2, 3] it gives [2, 3, 1] (two steps) instead of [3, 1, 2]. */
  lemma RotateAsWrittenOffByOne()
    ensures Rotated([1, 2, 3], -1 - 1) == [2, 3, 1]
    ensures Rotated([1, 2, 3], -1) == [3, 1, 2]
  {
    assert Rotated([1, 2, 3], -2)[0] == [1, 2, 3][(0 - 2) % 3];
  }

  /** The list after moving the item at oldIndex so that it ends at newIndex. */
  function Moved<T>(s: seq<T>, oldIndex: int, newIndex: int): seq<T>
    requires 0 <= oldIndex < |s| && 0 <= newIndex < |s|
  {
    var rest := s[..oldIndex] + s[oldIndex + 1..];
    rest[..newIndex] + [s[oldIndex]] + rest[newIndex..]
  }

  lemma MovedProperties<T>(s: seq<T>, oldIndex: int, newIndex: int)
    requires 0 <= oldIndex < |s| && 0 <= newIndex < |s|
    ensures |Moved(s, oldIndex, newIndex)| == |s|
    ensures Moved(s, oldIndex, newIndex)[newIndex] == s[oldIndex]
    ensures multiset(Moved(s, oldIndex, newIndex)) == multiset(s)
  {
    var rest := s[..oldIndex] + s[oldIndex + 1..];
    assert s == s[..oldIndex] + [s[oldIndex]] + s[oldIndex + 1..];
    assert rest == rest[..newIndex] + rest[newIndex..];
    calc {
      multiset(Moved(s, oldIndex, newIndex));
      multiset(rest[..newIndex]) + multiset([s[oldIndex]]) + multiset(rest[newIndex..]);
      multiset(rest) + multiset([s[oldIndex]]);
      multiset(s[..oldIndex]) + multiset(s[oldIndex + 1..]) + multiset([s[oldIndex]]);
      multiset(s);
    }
  }

  /** Moving the item back to where it came from restores the list. */
  lemma MovedInverse<T>(s: seq<T>, oldIndex: int, newIndex: int)
    requires 0 <= oldIndex < |s| && 0 <= newIndex < |s|
    ensures Moved(Moved(s, oldIndex, newIndex), newIndex, oldIndex) == s
  {
    var m := Moved(s, oldIndex, newIndex);
    MovedProperties(s, oldIndex, newIndex);
    var rest := s[..oldIndex] + s[oldIndex + 1..];
    assert m[..newIndex] + m[newIndex + 1..] == rest;
  }

  /** Moving an item forward to newIndex keeps everything before newIndex. */
  lemma MovedPrefix<T>(s: seq<T>, oldIndex: int, newIndex: int)
    requires 0 <= newIndex <= oldIndex < |s|
    ensures Moved(s, oldIndex, newIndex)[..newIndex + 1] == s[..newIndex] + [s[oldIndex]]
  {
    var rest := s[..oldIndex] + s[oldIndex + 1..];
    assert rest[..newIndex] == s[..newIndex];
  }

  /** Moving an item of a list without repeats leaves it without repeats. */
  lemma MovedDistinct<T>(s: seq<T>, oldIndex: int, newIndex: int)
    requires 0 <= oldIndex < |s| && 0 <= newIndex < |s| && Distinct(s)
    ensures Distinct(Moved(s, oldIndex, newIndex))
  {
    MovedProperties(s, oldIndex, newIndex);
    DistinctCounts(s);
    CountsDistinct(Moved(s, oldIndex, newIndex));
  }

  /** Move(oldIndex, newIndex): RemoveAt, then Add when newIndex is the new
      count and Insert otherwise. A bad oldIndex fails before any change; a bad
      newIndex fails after the item has been removed. */
  method Move<T>(list: seq<T>, oldIndex: int, newIndex: int) returns (r: seq<T>, err: Option<Exception>)
    ensures !(0 <= oldIndex < |list|) ==> r == list && err == Some(ArgumentOutOfRange)
    ensures 0 <= oldIndex < |list| && !(0 <= newIndex < |list|) ==>
      r == list[..oldIndex] + list[oldIndex + 1..] && err == Some(ArgumentOutOfRange)
    ensures 0 <= oldIndex < |list| && 0 <= newIndex < |list| ==>
      r == Moved(list, oldIndex, newIndex) && err == None
  {
    if !(0 <= oldIndex < |list|) {
      return list, Some(ArgumentOutOfRange);
    }
    var item := list[oldIndex];
    r := list[..oldIndex] + list[oldIndex + 1..];
    if newIndex == |r| {
      r := r + [item];
      assert r == Moved(list, oldIndex, newIndex);
      err := None;
    } else if 0 <= newIndex < |r| {
      r := r[..newIndex] + [item] + r[newIndex..];
      err := None;
    } else {
      err := Some(ArgumentOutOfRange);
    }
  }

  /** Move(item, newIndex): an item not in the list fails with a
      NullReferenceException; otherwise its first occurrence is moved. */
  method MoveItem<T(==)>(list: seq<T>, item: T, newIndex: int) returns (r: seq<T>, err: Option<Exception>)
    ensures item !in list ==> r == list && err == Some(NullReference)
    ensures item in list && !(0 <= newIndex < |list|) ==>
      r == list[..IndexOf(list, item)] + list[IndexOf(list, item) + 1..] && err == Some(ArgumentOutOfRange)
    ensures item in list && 0 <= newIndex < |list| ==>
      r == Moved(list, IndexOf(list, item), newIndex) && err == None
  {
    var oldIndex := IndexOf(list, item);
    if oldIndex == -1 {
      return list, Some(NullReference);
    }
    r, err := Move(list, oldIndex, newIndex);
  }
}
