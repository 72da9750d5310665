/** An Enigma wheel: an index etching and its scrambled wiring, two lists of
    characters. The path through a wheel leads from a pin to the pin whose
    index letter is the wiring letter (forwards), or back. Reflect rebuilds
    the wiring so that it pairs letters, as a reflector needs. */
module EnigmaWheels {
  import opened Wrappers
  import opened Text
  import opened Alphabets

  /** GetPath(pin, forward): forwards, the index position of the letter wired
      to the pin; backwards, the wiring position of the pin's index letter.
      A pin outside the list throws ArgumentOutOfRangeException; a letter the
      other list lacks gives -1. */
  function Path(indexing: seq<char>, wiring: seq<char>, pin: int, forward: bool): (r: Result<int>)
    ensures forward ==> (r.Success? <==> 0 <= pin < |wiring|)
    ensures !forward ==> (r.Success? <==> 0 <= pin < |indexing|)
    ensures r.Failure? ==> r.error == ArgumentOutOfRange
    ensures r.Success? && forward ==>
      -1 <= r.value < |indexing| && (r.value == -1 <==> wiring[pin] !in indexing) &&
      (r.value >= 0 ==> indexing[r.value] == wiring[pin])
    ensures r.Success? && !forward ==>
      -1 <= r.value < |wiring| && (r.value == -1 <==> indexing[pin] !in wiring) &&
      (r.value >= 0 ==> wiring[r.value] == indexing[pin])
  {
    if forward then
      if 0 <= pin < |wiring| then Success(IndexOf(indexing, wiring[pin])) else Failure(ArgumentOutOfRange)
    else
      if 0 <= pin < |indexing| then Success(IndexOf(wiring, indexing[pin])) else Failure(ArgumentOutOfRange)
  }

  /** A wheel whose index etching and wiring are arrangements of the same
      distinct letters. */
  predicate Wheel(indexing: seq<char>, wiring: seq<char>)
  {
    Distinct(indexing) && Distinct(wiring) && |indexing| == |wiring| &&
    forall c :: c in indexing <==> c in wiring
  }

  /** On a wheel the backward path undoes the forward path and the forward
      path undoes the backward one. */
  lemma PathInverse(indexing: seq<char>, wiring: seq<char>, pin: int)
    requires Wheel(indexing, wiring) && 0 <= pin < |indexing|
    ensures Path(indexing, wiring, pin, true).Success?
    ensures var q := Path(indexing, wiring, pin, true).value;
      0 <= q < |indexing| && Path(indexing, wiring, q, false) == Success(pin)
    ensures Path(indexing, wiring, pin, false).Success?
    ensures var q := Path(indexing, wiring, pin, false).value;
      0 <= q < |wiring| && Path(indexing, wiring, q, true) == Success(pin)
  {
    assert wiring[pin] in indexing;
    var q := IndexOf(indexing, wiring[pin]);
    IndexOfDistinct(wiring, pin);
    assert indexing[pin] in wiring;
    var q' := IndexOf(wiring, indexing[pin]);
    IndexOfDistinct(indexing, pin);
  }

  /** A wiring that pairs letters: whenever pin k is wired to the letter of
      pin m, pin m is wired to the letter of pin k. */
  predicate Paired(indexing: seq<char>, wiring: seq<char>)
  {
    |wiring| == |indexing| &&
    forall k, m :: 0 <= k < |wiring| && 0 <= m < |indexing| && wiring[k] == indexing[m] ==> wiring[m] == indexing[k]
  }

  /** Through a wheel whose wiring pairs its own letters the forward path is
      an involution: going through twice leads back to the starting pin. */
  lemma PairedInvolution(indexing: seq<char>, wiring: seq<char>, pin: int)
    requires Distinct(indexing) && Paired(indexing, wiring) && (forall c :: c in wiring ==> c in indexing)
    requires 0 <= pin < |indexing|
    ensures Path(indexing, wiring, pin, true).Success?
    ensures var q := Path(indexing, wiring, pin, true).value;
      0 <= q < |indexing| && Path(indexing, wiring, q, true) == Success(pin)
  {
    assert wiring[pin] in indexing;
    var q := IndexOf(indexing, wiring[pin]);
    assert wiring[q] == indexing[pin];
    IndexOfDistinct(indexing, pin);
  }

  // ---------------------------------------------------------------------
  // Reflect

  /** The state of Reflect's loop: the wiring rebuilt so far, the copy of
      the old wiring that fresh letters are taken from, and the exception
      that ended the loop, if any. */
  datatype Reflection = Reflection(wiring: seq<char>, duplicate: seq<char>, err: Option<Exception>)

  /** The do-while search of Reflect from index j: the first letter of the
      copy that has not been dealt with; running off the end throws
      ArgumentOutOfRangeException. */
  function FirstFresh(duplicate: seq<char>, dealtWith: seq<char>, j: nat): (r: Result<char>)
    requires j <= |duplicate|
    ensures r.Success? ==> r.value in duplicate[j..] && r.value !in dealtWith
    ensures r.Failure? <==> forall k :: j <= k < |duplicate| ==> duplicate[k] in dealtWith
    ensures r.Failure? ==> r.error == ArgumentOutOfRange
    decreases |duplicate| - j
  {
    if j == |duplicate| then Failure(ArgumentOutOfRange)
    else if duplicate[j] !in dealtWith then Success(duplicate[j])
    else
      var r := FirstFresh(duplicate, dealtWith, j + 1);
      assert r.Success? ==> r.value in duplicate[j..] by {
        if r.Success? {
          assert duplicate[j + 1..] == duplicate[j..][1..];
        }
      }
      r
  }

  /** One pass of Reflect's loop for the index letter at i: an empty copy
      throws on reading its first letter; a letter already wired to maps
      back to its partner; any other takes the first fresh letter of the
      copy, which is then removed from it. The letter is added to the
      wiring, which keeps it only if it is new. */
  function ReflectStep(indexing: seq<char>, i: nat, st: Reflection): (r: Reflection)
    requires i < |indexing| && |st.wiring| <= i
    ensures |r.wiring| <= i + 1
  {
    if st.duplicate == [] then st.(err := Some(ArgumentOutOfRange))
    else
      var ci := indexing[i];
      if ci in st.wiring then Reflection(Added(st.wiring, indexing[IndexOf(st.wiring, ci)]), st.duplicate, None)
      else
        match FirstFresh(st.duplicate, indexing[..i], 0)
        case Failure(e) => st.(err := Some(e))
        case Success(cw) => Reflection(Added(st.wiring, cw), Removed(st.duplicate, cw), None)
  }

  /** Reflect's loop after the first n index letters, starting from an empty
      wiring and a copy of the old one; the first exception stops it. */
  function Reflecting(indexing: seq<char>, wiring: seq<char>, n: nat): (r: Reflection)
    requires n <= |indexing|
    ensures |r.wiring| <= n
  {
    if n == 0 then Reflection([], Dedup(wiring), None)
    else
      var prev := Reflecting(indexing, wiring, n - 1);
      if prev.err.Some? then prev else ReflectStep(indexing, n - 1, prev)
  }

  /** Once Reflect's loop has thrown, later passes change nothing. */
  lemma {:induction false} ReflectingStops(indexing: seq<char>, wiring: seq<char>, n: nat, m: nat)
    requires n <= m <= |indexing| && Reflecting(indexing, wiring, n).err.Some?
    ensures Reflecting(indexing, wiring, m) == Reflecting(indexing, wiring, n)
    decreases m - n
  {
    if n < m {
      ReflectingStops(indexing, wiring, n, m - 1);
    }
  }

  /** What holds of Reflect's loop after n letters when it has not thrown:
      the wiring so far has one new letter per index letter, pairs the
      letters dealt with, and every letter in it was dealt with or has left
      the copy. */
  ghost predicate ReflectInvariant(indexing: seq<char>, wiring: seq<char>, n: nat, st: Reflection)
    requires n <= |indexing|
  {
    |st.wiring| == n && Distinct(st.wiring) && Distinct(st.duplicate) &&
    (forall k, m :: 0 <= k < n && 0 <= m < n && st.wiring[k] == indexing[m] ==> st.wiring[m] == indexing[k]) &&
    (forall x :: x in st.wiring ==> x in indexing[..n] || x !in st.duplicate) &&
    (forall x :: x in st.wiring ==> x in indexing || x in wiring) &&
    (forall x :: x in st.duplicate ==> x in wiring)
  }

  /** A pass that does not throw keeps the invariant. */
  lemma ReflectStepKeeps(indexing: seq<char>, wiring: seq<char>, i: nat, st: Reflection)
    requires Distinct(indexing) && i < |indexing| && ReflectInvariant(indexing, wiring, i, st)
    requires ReflectStep(indexing, i, st).err.None?
    ensures ReflectInvariant(indexing, wiring, i + 1, ReflectStep(indexing, i, st))
  {
    var W, ci := st.wiring, indexing[i];
    assert indexing[..i + 1] == indexing[..i] + [ci];
    if ci in W {
      var k := IndexOf(W, ci);
      var cw := indexing[k];
      assert cw !in W by {
        forall m | 0 <= m < i
          ensures W[m] != cw
        {
        }
      }
      var W' := W + [cw];
      forall a, b | 0 <= a < i + 1 && 0 <= b < i + 1 && W'[a] == indexing[b]
        ensures W'[b] == indexing[a]
      {
        if a < i && b == i {
          assert W[a] == W[k];
        }
      }
    } else {
      var cw := FirstFresh(st.duplicate, indexing[..i], 0).value;
      assert cw !in W;
      var W', D' := W + [cw], Removed(st.duplicate, cw);
      RemovedDistinct(st.duplicate, cw);
      WithoutDistinct(st.duplicate, cw);
      forall a, b | 0 <= a < i + 1 && 0 <= b < i + 1 && W'[a] == indexing[b]
        ensures W'[b] == indexing[a]
      {
        assert b < i ==> indexing[b] in indexing[..i];
        assert a < i ==> W[a] in W;
      }
    }
  }

  /** The invariant carries over from k passes to k + 1. */
  lemma ReflectingNext(indexing: seq<char>, wiring: seq<char>, k: nat)
    requires Distinct(indexing) && k < |indexing| && Reflecting(indexing, wiring, k + 1).err.None?
    requires ReflectInvariant(indexing, wiring, k, Reflecting(indexing, wiring, k))
    ensures ReflectInvariant(indexing, wiring, k + 1, Reflecting(indexing, wiring, k + 1))
  {
    ReflectStepKeeps(indexing, wiring, k, Reflecting(indexing, wiring, k));
  }

  /** A loop that has not thrown after n passes had not thrown earlier. */
  lemma ReflectingOk(indexing: seq<char>, wiring: seq<char>, k: nat, n: nat)
    requires k <= n <= |indexing|
    ensures Reflecting(indexing, wiring, n).err.None? ==> Reflecting(indexing, wiring, k).err.None?
  {
    if Reflecting(indexing, wiring, k).err.Some? {
      ReflectingStops(indexing, wiring, k, n);
    }
  }

  /** The invariant carries over from k passes to any later n that did not
      throw. */
  lemma {:induction false} ReflectingUpTo(indexing: seq<char>, wiring: seq<char>, k: nat, n: nat)
    requires Distinct(indexing) && k <= n <= |indexing| && Reflecting(indexing, wiring, n).err.None?
    requires ReflectInvariant(indexing, wiring, k, Reflecting(indexing, wiring, k))
    ensures ReflectInvariant(indexing, wiring, n, Reflecting(indexing, wiring, n))
    decreases n - k
  {
    if k < n {
      ReflectingOk(indexing, wiring, k + 1, n);
      ReflectingNext(indexing, wiring, k);
      ReflectingUpTo(indexing, wiring, k + 1, n);
    }
  }

  /** The invariant holds after every number of passes that did not throw. */
  lemma ReflectingInvariant(indexing: seq<char>, wiring: seq<char>, n: nat)
    requires Distinct(indexing) && n <= |indexing| && Reflecting(indexing, wiring, n).err.None?
    ensures ReflectInvariant(indexing, wiring, n, Reflecting(indexing, wiring, n))
  {
    assert ReflectInvariant(indexing, wiring, 0, Reflecting(indexing, wiring, 0));
    ReflectingUpTo(indexing, wiring, 0, n);
  }

  /** When Reflect completes on distinct index letters, the new wiring pairs
      them: one letter per pin, no letter twice, each wired pair wired both
      ways, every letter taken from the index or the old wiring. */
  lemma ReflectPairs(indexing: seq<char>, wiring: seq<char>)
    requires Distinct(indexing)
    requires Reflecting(indexing, wiring, |indexing|).err.None?
    ensures var w := Reflecting(indexing, wiring, |indexing|).wiring;
      Paired(indexing, w) && Distinct(w) && forall x :: x in w ==> x in indexing || x in wiring
  {
    ReflectingInvariant(indexing, wiring, |indexing|);
    assert indexing[..|indexing|] == indexing;
  }

  /** Reflect's loop one pass further, when it has not thrown yet. */
  lemma ReflectingSucc(indexing: seq<char>, wiring: seq<char>, k: nat)
    requires k < |indexing| && Reflecting(indexing, wiring, k).err.None?
    ensures Reflecting(indexing, wiring, k + 1) == ReflectStep(indexing, k, Reflecting(indexing, wiring, k))
  {
  }

  /** The first pass of Reflect on index AB and wiring AB takes A from the
      copy. */
  lemma ReflectSelfMapFirst(ab: seq<char>)
    requires ab == ['A', 'B']
    ensures Reflecting(ab, ab, 1) == Reflection(['A'], ['B'], None)
  {
    DedupDistinct(ab);
    assert Reflecting(ab, ab, 0) == Reflection([], ab, None);
    ReflectingSucc(ab, ab, 0);
    assert ab[..0] == [];
    assert FirstFresh(ab, [], 0) == Success('A');
    assert Removed(ab, 'A') == ['B'];
  }

  /** As its documentation warns, Reflect can wire a letter to itself: with
      index AB and wiring AB both letters stay where they are. */
  lemma ReflectSelfMap(ab: seq<char>)
    requires ab == ['A', 'B']
    ensures Reflecting(ab, ab, |ab|) == Reflection(ab, [], None)
  {
    ReflectSelfMapFirst(ab);
    ReflectingSucc(ab, ab, 1);
    assert ab[..1] == ['A'];
    assert FirstFresh(['B'], ['A'], 0) == Success('B');
    assert Removed(['B'], 'B') == [];
  }

  /** A wheel: the index etching and the wiring, each a list of distinct
      characters. */
  class EnigmaWheel {
    var indexing: seq<char>
    var wiring: seq<char>

    /** EnigmaWheel(indexing, wiring) from strings: each becomes an
        alphabet, so repeated characters are dropped. */
    constructor(indexing: string, wiring: string)
      ensures this.indexing == Dedup(indexing) && this.wiring == Dedup(wiring)
    {
      this.indexing := Dedup(indexing);
      this.wiring := Dedup(wiring);
    }

    /** Reflect(): the wiring rebuilt pass by pass over the index letters, as
        Reflecting describes; an exception leaves the wiring as far as it
        got. */
    method Reflect() returns (err: Option<Exception>)
      modifies this
      ensures indexing == old(indexing)
      ensures var r := Reflecting(old(indexing), old(wiring), |old(indexing)|);
        wiring == r.wiring && err == r.err
    {
      var r := Reflected(indexing, wiring, |indexing|);
      wiring := r.wiring;
      err := r.err;
    }

    /** GetPath(pin, forward): the pin the current leaves by, as Path says. */
    function GetPath(pin: int, forward: bool): Result<int>
      reads this
    {
      Path(indexing, wiring, pin, forward)
    }
  }

  /** Reflect's loop over the first n index letters, from the old wiring:
      the wiring built and the exception that stopped the loop, if any. */
  method Reflected(letters: seq<char>, original: seq<char>, n: nat) returns (r: Reflection)
    requires n <= |letters|
    ensures r == Reflecting(letters, original, n)
  {
    var wiring, duplicate, dealtWith := [], Dedup(original), [];
    for i := 0 to n
      invariant dealtWith == letters[..i]
      invariant Reflecting(letters, original, i) == Reflection(wiring, duplicate, None)
    {
      var st := ReflectPass(letters, i, wiring, duplicate, dealtWith);
      assert Reflecting(letters, original, i + 1) == st by {
        ReflectingSucc(letters, original, i);
      }
      if st.err.Some? {
        assert Reflecting(letters, original, n) == st by {
          ReflectingStops(letters, original, i + 1, n);
        }
        return st;
      }
      dealtWith := Snoc(letters, i, dealtWith);
      wiring, duplicate := st.wiring, st.duplicate;
    }
    return Reflection(wiring, duplicate, None);
  }

  /** The letters dealt with, one further. */
  function Snoc(letters: seq<char>, i: nat, dealtWith: seq<char>): (r: seq<char>)
    requires i < |letters| && dealtWith == letters[..i]
    ensures r == letters[..i + 1]
  {
    assert letters[..i + 1] == dealtWith + [letters[i]];
    dealtWith + [letters[i]]
  }

  /** One pass of Reflect's loop over the letters dealt with so far. */
  method ReflectPass(indexing: seq<char>, i: nat, wiring: seq<char>, duplicate: seq<char>, dealtWith: seq<char>)
    returns (st: Reflection)
    requires i < |indexing| && |wiring| <= i && dealtWith == indexing[..i]
    ensures st == ReflectStep(indexing, i, Reflection(wiring, duplicate, None))
  {
    if duplicate == [] {
      return Reflection(wiring, duplicate, Some(ArgumentOutOfRange));
    }
    var cw := duplicate[0];
    var ci := indexing[i];
    var rest := duplicate;
    if ci in wiring {
      cw := indexing[IndexOf(wiring, ci)];
    } else {
      var found := FindFresh(duplicate, dealtWith);
      if found.Failure? {
        return Reflection(wiring, duplicate, Some(found.error));
      }
      cw := found.value;
      rest := Removed(duplicate, cw);
    }
    return Reflection(Added(wiring, cw), rest, None);
  }

  /** Reflect's do-while: read letters of the copy from the start until one
      has not been dealt with. */
  method FindFresh(duplicate: seq<char>, dealtWith: seq<char>) returns (r: Result<char>)
    requires duplicate != []
    ensures r == FirstFresh(duplicate, dealtWith, 0)
  {
    var index := 0;
    var cw := duplicate[index];
    index := index + 1;
    while cw in dealtWith
      invariant 1 <= index <= |duplicate| && cw == duplicate[index - 1]
      invariant FirstFresh(duplicate, dealtWith, 0) == FirstFresh(duplicate, dealtWith, index - 1)
      decreases |duplicate| - index
    {
      if index == |duplicate| {
        return Failure(ArgumentOutOfRange);
      }
      cw := duplicate[index];
      index := index + 1;
    }
    return Success(cw);
  }
}
