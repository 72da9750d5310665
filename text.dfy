/** Character and list vocabulary shared by the C++ tool, its C# port and the
    Horus library: ASCII case mapping, the capital alphabet, first-occurrence
    search, duplicate removal and filtering. */
module Text {

  /** The 26 capital letters, in order ("letters[]" / "capital_letters"). */
  const Capitals: string := "ABCDEFGHIJKLMNOPQRSTUVWXYZ"

  predicate IsCapital(c: char) { 'A' <= c <= 'Z' }

  /** The value of a capital letter: its distance from 'A'. */
  function CapitalIndex(c: char): (r: nat)
    requires IsCapital(c)
    ensures r < 26 && Capitals[r] == c
  {
    c as int - 'A' as int
  }

  /** toupper / char.ToUpper restricted to ASCII: only 'a'..'z' change. */
  function UpperChar(c: char): (r: char)
    ensures 'a' <= c <= 'z' ==> IsCapital(r) && r as int == c as int - 32
    ensures !('a' <= c <= 'z') ==> r == c
  {
    if 'a' <= c <= 'z' then (c as int - 32) as char else c
  }

  /** char.ToLower restricted to ASCII: only 'A'..'Z' change. */
  function LowerChar(c: char): (r: char)
    ensures IsCapital(c) ==> 'a' <= r <= 'z' && r as int == c as int + 32
    ensures !IsCapital(c) ==> r == c
  {
    if IsCapital(c) then (c as int + 32) as char else c
  }

  function Upper(s: string): (r: string)
    ensures |r| == |s|
    ensures forall i :: 0 <= i < |s| ==> r[i] == UpperChar(s[i])
  {
    seq(|s|, i requires 0 <= i < |s| => UpperChar(s[i]))
  }

  function Lower(s: string): (r: string)
    ensures |r| == |s|
    ensures forall i :: 0 <= i < |s| ==> r[i] == LowerChar(s[i])
  {
    seq(|s|, i requires 0 <= i < |s| => LowerChar(s[i]))
  }

  /** s with every occurrence of c deleted, the rest kept in order. */
  function Without<T(==,!new)>(s: seq<T>, c: T): (r: seq<T>)
    ensures |r| <= |s|
    ensures c !in r
    ensures forall x :: x in r <==> x in s && x != c
    ensures c !in s ==> r == s
  {
    if s == [] then []
    else if s[|s| - 1] == c then Without(s[..|s| - 1], c)
    else Without(s[..|s| - 1], c) + [s[|s| - 1]]
  }

  /** The text with its blanks removed. */
  function RemoveSpaces(s: string): (r: string)
    ensures ' ' !in r
    ensures forall x :: x in r <==> x in s && x != ' '
  {
    Without(s, ' ')
  }

  lemma WithoutAppend<T(!new)>(a: seq<T>, b: seq<T>, c: T)
    ensures Without(a + b, c) == Without(a, c) + Without(b, c)
  {
    if b == [] {
      assert a + b == a;
    } else {
      assert (a + b)[..|a + b| - 1] == a + b[..|b| - 1];
      WithoutAppend(a, b[..|b| - 1], c);
    }
  }

  /** Deleting an element that occurs makes the sequence shorter. */
  lemma {:induction false} WithoutShorter<T(!new)>(s: seq<T>, c: T)
    requires c in s
    ensures |Without(s, c)| < |s|
  {
    var t := s[..|s| - 1];
    if s[|s| - 1] != c {
      assert s == t + [s[|s| - 1]];
      WithoutShorter(t, c);
    }
  }

  /** Except keeps a sequence none of whose elements is dropped. */
  lemma {:induction false} ExceptNothing<T(!new)>(s: seq<T>, drop: seq<T>)
    requires forall x :: x in s ==> x !in drop
    ensures Except(s, drop) == s
  {
    if s != [] {
      ExceptNothing(s[..|s| - 1], drop);
    }
  }

  lemma {:induction false} ExceptAppend<T(!new)>(a: seq<T>, b: seq<T>, drop: seq<T>)
    ensures Except(a + b, drop) == Except(a, drop) + Except(b, drop)
  {
    if b == [] {
      assert a + b == a;
    } else {
      assert (a + b)[..|a + b| - 1] == a + b[..|b| - 1];
      ExceptAppend(a, b[..|b| - 1], drop);
    }
  }

  predicate Distinct<T(==)>(s: seq<T>)
  {
    forall i, j :: 0 <= i < j < |s| ==> s[i] != s[j]
  }

  /** The first index of x in s, or -1 when x does not occur. */
  function IndexOf<T(==)>(s: seq<T>, x: T): (r: int)
    ensures -1 <= r < |s|
    ensures r == -1 <==> x !in s
    ensures r >= 0 ==> s[r] == x && x !in s[..r]
  {
    if s == [] then -1
    else if s[0] == x then 0
    else
      var k := IndexOf(s[1..], x);
      assert s[1..][..if k < 0 then 0 else k] == s[1..if k < 0 then 1 else k + 1];
      if k < 0 then -1 else k + 1
  }

  lemma IndexOfDistinct<T>(s: seq<T>, i: int)
    requires Distinct(s) && 0 <= i < |s|
    ensures IndexOf(s, s[i]) == i
  {
    var k := IndexOf(s, s[i]);
    assert s[k] == s[i];
  }

  /** The distinct elements of s, each where it first occurs (LINQ Distinct). */
  function Dedup<T(==,!new)>(s: seq<T>): (r: seq<T>)
    ensures Distinct(r)
    ensures forall x :: x in r <==> x in s
    ensures |r| <= |s|
  {
    if s == [] then []
    else
      var d := Dedup(s[..|s| - 1]);
      if s[|s| - 1] in d then d else d + [s[|s| - 1]]
  }

  lemma DedupDistinct<T(!new)>(s: seq<T>)
    requires Distinct(s)
    ensures Dedup(s) == s
  {
    if s != [] {
      DedupDistinct(s[..|s| - 1]);
    }
  }

  /** The elements of s that do not occur in drop, in order. */
  function Except<T(==,!new)>(s: seq<T>, drop: seq<T>): (r: seq<T>)
    ensures |r| <= |s|
    ensures forall x :: x in r <==> x in s && x !in drop
  {
    if s == [] then []
    else if s[|s| - 1] in drop then Except(s[..|s| - 1], drop)
    else Except(s[..|s| - 1], drop) + [s[|s| - 1]]
  }

  lemma ExceptDistinct<T(!new)>(s: seq<T>, drop: seq<T>)
    requires Distinct(s)
    ensures Distinct(Except(s, drop))
  {
    if s != [] {
      var t := s[..|s| - 1];
      ExceptDistinct(t, drop);
      assert s[|s| - 1] !in t;
      assert s[|s| - 1] !in Except(t, drop);
    }
  }

  lemma CapitalsDistinct()
    ensures Distinct(Capitals)
    ensures forall i :: 0 <= i < 26 ==> Capitals[i] as int == 'A' as int + i
  {
    assert Capitals == seq(26, i requires 0 <= i < 26 => ('A' as int + i) as char);
  }

  /** letters[i]: the capital i places after 'A'. */
  function Letter(i: int): (c: char)
    requires 0 <= i < 26
    ensures IsCapital(c) && CapitalIndex(c) == i && Capitals[i] == c
  {
    CapitalsDistinct();
    Capitals[i]
  }

  lemma WithoutDistinct<T(!new)>(s: seq<T>, c: T)
    requires Distinct(s)
    ensures Distinct(Without(s, c))
  {
    if s != [] {
      var t := s[..|s| - 1];
      WithoutDistinct(t, c);
      assert s[|s| - 1] !in t;
      assert s[|s| - 1] !in Without(t, c);
    }
  }

  /** A sequence without repeats has as many elements as its set. */
  lemma DistinctCard<T>(s: seq<T>)
    requires Distinct(s)
    ensures |set x | x in s| == |s|
  {
    if s != [] {
      var t := s[..|s| - 1];
      DistinctCard(t);
      assert (set x | x in s) == (set x | x in t) + {s[|s| - 1]};
    }
  }

  /** No element occurs twice in a sequence without repeats. */
  lemma {:induction false} DistinctCounts<T>(s: seq<T>)
    requires Distinct(s)
    ensures forall x :: multiset(s)[x] <= 1
  {
    if s != [] {
      var t, z := s[..|s| - 1], s[|s| - 1];
      assert s == t + [z];
      DistinctCounts(t);
      assert z !in t;
    }
  }

  /** A sequence in which no element occurs twice has no repeats. */
  lemma CountsDistinct<T>(s: seq<T>)
    requires forall x :: multiset(s)[x] <= 1
    ensures Distinct(s)
  {
    forall i, j | 0 <= i < j < |s|
      ensures s[i] != s[j]
    {
      RepeatCount(s, i, j);
    }
  }

  lemma RepeatCount<T>(s: seq<T>, i: int, j: int)
    requires 0 <= i < j < |s|
    ensures s[i] == s[j] ==> multiset(s)[s[i]] >= 2
  {
    assert s == s[..i] + [s[i]] + s[i + 1..j] + [s[j]] + s[j + 1..];
  }

  /** A prefix one longer is the prefix and the next item. */
  lemma PrefixSnoc<T>(s: seq<T>, i: nat)
    requires i < |s|
    ensures s[..i + 1] == s[..i] + [s[i]]
  {
  }

  /** The last index of c in s, or -1 when c does not occur. */
  function LastIndexOf<T(==)>(s: seq<T>, c: T): (r: int)
    ensures -1 <= r < |s|
    ensures r == -1 <==> c !in s
    ensures r >= 0 ==> s[r] == c && c !in s[r + 1..]
  {
    if s == [] then -1
    else if s[|s| - 1] == c then |s| - 1
    else
      var front := s[..|s| - 1];
      var k := LastIndexOf(front, c);
      assert s == front + [s[|s| - 1]];
      assert k >= 0 ==> s[k + 1..] == front[k + 1..] + [s[|s| - 1]];
      k
  }

  lemma LastIndexOfDistinct<T>(s: seq<T>, i: int)
    requires Distinct(s) && 0 <= i < |s|
    ensures LastIndexOf(s, s[i]) == i
  {
    var k := LastIndexOf(s, s[i]);
    assert s[k] == s[i];
  }
}
