/** The Enigma machine: a key press steps the fast rotor (and, through the
    notch events, the rotors after it), then the current runs from the
    alphabet through the stator, the rotors in order, the reflector, the
    rotors in reverse and the stator back to a lamp. */
module EnigmaMachines {
  import opened Wrappers
  import opened Text
  import opened EnigmaWheels
  import opened Rotors

  /** The two lists of a wheel that does not turn: the stator or the
      reflector. */
  datatype Plate = Plate(indexing: seq<char>, wiring: seq<char>)

  // ---------------------------------------------------------------------
  // The signal path

  /** One GetPath of a wheel on a current that may already have failed: a
      thrown exception propagates. */
  function Through(indexing: seq<char>, wiring: seq<char>, pin: Result<int>, forward: bool): (r: Result<int>)
  {
    if pin.Failure? then pin else Path(indexing, wiring, pin.value, forward)
  }

  /** The current through rotors 0 .. n-1, each forwards. */
  function Forward(states: seq<RotorState>, pin: Result<int>): (r: Result<int>)
    ensures pin.Failure? ==> r == pin
  {
    if states == [] then pin
    else
      var last := states[|states| - 1];
      Through(last.indexing, last.wiring, Forward(states[..|states| - 1], pin), true)
  }

  /** The current back through rotors n-1 .. 0, each backwards. */
  function Backward(states: seq<RotorState>, pin: Result<int>): (r: Result<int>)
    ensures pin.Failure? ==> r == pin
  {
    if states == [] then pin
    else
      var last := states[|states| - 1];
      Backward(states[..|states| - 1], Through(last.indexing, last.wiring, pin, false))
  }

  /** The lamp a key lights once the rotors stand in the given states: the
      key's alphabet index through the stator, the rotors, the reflector,
      the rotors in reverse and the stator back, read off the alphabet. A
      key outside the alphabet gives index -1, which the stator refuses. */
  function Lamp(alphabet: seq<char>, stator: Plate, states: seq<RotorState>, reflector: Plate, c: char): (r: Result<char>)
    ensures c !in alphabet ==> r == Failure(ArgumentOutOfRange)
    ensures r.Success? ==> r.value in alphabet
  {
    var p1 := Through(stator.indexing, stator.wiring, Success(IndexOf(alphabet, c)), true);
    var p2 := Forward(states, p1);
    var p3 := Through(reflector.indexing, reflector.wiring, p2, true);
    var p4 := Backward(states, p3);
    var p5 := Through(stator.indexing, stator.wiring, p4, false);
    if p5.Failure? then Failure(p5.error)
    else if 0 <= p5.value < |alphabet| then Success(alphabet[p5.value])
    else Failure(ArgumentOutOfRange)
  }

  /** Every rotor is sound and has n pins. */
  predicate RotorsOfSize(states: seq<RotorState>, n: nat)
  {
    forall i :: 0 <= i < |states| ==> Sound(states[i]) && |states[i].indexing| == n
  }

  /** A machine that deciphers what it enciphers: a distinct alphabet, and a
      stator, rotors and reflector of the same size; the stator and rotors
      are wheels, and the reflector's wiring pairs its distinct letters. */
  predicate Reciprocal(alphabet: seq<char>, stator: Plate, states: seq<RotorState>, reflector: Plate)
  {
    var n := |alphabet|;
    Distinct(alphabet) && Wheel(stator.indexing, stator.wiring) && |stator.indexing| == n &&
    RotorsOfSize(states, n) &&
    Distinct(reflector.indexing) && Paired(reflector.indexing, reflector.wiring) &&
    (forall c :: c in reflector.wiring ==> c in reflector.indexing) && |reflector.indexing| == n
  }

  /** Through sound rotors of size n, a pin below n comes out forwards as a
      pin below n, and the way back returns it. */
  lemma {:induction false} ForwardInverse(states: seq<RotorState>, n: nat, p: int)
    requires RotorsOfSize(states, n) && 0 <= p < n
    ensures Forward(states, Success(p)).Success?
    ensures var q := Forward(states, Success(p)).value;
      0 <= q < n && Backward(states, Success(q)) == Success(p)
  {
    if states != [] {
      var front, last := states[..|states| - 1], states[|states| - 1];
      assert RotorsOfSize(front, n);
      ForwardInverse(front, n, p);
      var q := Forward(front, Success(p)).value;
      PathInverse(last.indexing, last.wiring, q);
    }
  }

  /** Backwards the same: a pin below n comes back as a pin below n, and
      going forwards returns it. */
  lemma {:induction false} BackwardInverse(states: seq<RotorState>, n: nat, p: int)
    requires RotorsOfSize(states, n) && 0 <= p < n
    ensures Backward(states, Success(p)).Success?
    ensures var q := Backward(states, Success(p)).value;
      0 <= q < n && Forward(states, Success(q)) == Success(p)
  {
    if states != [] {
      var front, last := states[..|states| - 1], states[|states| - 1];
      assert RotorsOfSize(front, n);
      PathInverse(last.indexing, last.wiring, p);
      var q := Path(last.indexing, last.wiring, p, false).value;
      BackwardInverse(front, n, q);
    }
  }

  /** The pins a key's current passes on its way to the lamp, each below n. */
  datatype Trace = Trace(p0: int, p1: int, p2: int, p3: int, p4: int, p5: int)

  /** On a reciprocal machine the current from a letter of the alphabet
      reaches a lamp, and every pin on the way is in range. */
  lemma LampTrace(alphabet: seq<char>, stator: Plate, states: seq<RotorState>, reflector: Plate, c: char)
    returns (t: Trace)
    requires Reciprocal(alphabet, stator, states, reflector) && c in alphabet
    ensures var n := |alphabet|;
      0 <= t.p0 < n && 0 <= t.p1 < n && 0 <= t.p2 < n && 0 <= t.p3 < n && 0 <= t.p4 < n && 0 <= t.p5 < n
    ensures t.p0 == IndexOf(alphabet, c)
    ensures Path(stator.indexing, stator.wiring, t.p0, true) == Success(t.p1)
    ensures Path(stator.indexing, stator.wiring, t.p1, false) == Success(t.p0)
    ensures Forward(states, Success(t.p1)) == Success(t.p2) && Backward(states, Success(t.p2)) == Success(t.p1)
    ensures Path(reflector.indexing, reflector.wiring, t.p2, true) == Success(t.p3)
    ensures Path(reflector.indexing, reflector.wiring, t.p3, true) == Success(t.p2)
    ensures Backward(states, Success(t.p3)) == Success(t.p4) && Forward(states, Success(t.p4)) == Success(t.p3)
    ensures Path(stator.indexing, stator.wiring, t.p4, false) == Success(t.p5)
    ensures Path(stator.indexing, stator.wiring, t.p5, true) == Success(t.p4)
    ensures Lamp(alphabet, stator, states, reflector, c) == Success(alphabet[t.p5])
  {
    var n := |alphabet|;
    var p0 := IndexOf(alphabet, c);
    PathInverse(stator.indexing, stator.wiring, p0);
    var p1 := Path(stator.indexing, stator.wiring, p0, true).value;
    ForwardInverse(states, n, p1);
    var p2 := Forward(states, Success(p1)).value;
    PairedInvolution(reflector.indexing, reflector.wiring, p2);
    var p3 := Path(reflector.indexing, reflector.wiring, p2, true).value;
    BackwardInverse(states, n, p3);
    var p4 := Backward(states, Success(p3)).value;
    PathInverse(stator.indexing, stator.wiring, p4);
    var p5 := Path(stator.indexing, stator.wiring, p4, false).value;
    t := Trace(p0, p1, p2, p3, p4, p5);
  }

  /** Reciprocity: with the rotors standing still, the lamp lit by the lamp
      of a letter is the letter itself. */
  lemma LampInvolution(alphabet: seq<char>, stator: Plate, states: seq<RotorState>, reflector: Plate, c: char)
    requires Reciprocal(alphabet, stator, states, reflector) && c in alphabet
    ensures var r := Lamp(alphabet, stator, states, reflector, c);
      r.Success? && Lamp(alphabet, stator, states, reflector, r.value) == Success(c)
  {
    var t := LampTrace(alphabet, stator, states, reflector, c);
    var d := alphabet[t.p5];
    IndexOfDistinct(alphabet, t.p5);
    var u := LampTrace(alphabet, stator, states, reflector, d);
    assert u.p0 == t.p5;
    assert u.p1 == t.p4;
    assert u.p2 == t.p3;
    assert u.p3 == t.p2;
    assert u.p4 == t.p1;
    assert u.p5 == t.p0;
  }

  /** A reflector that wires no letter to itself. */
  predicate FixedPointFree(reflector: Plate)
  {
    forall k :: 0 <= k < |reflector.indexing| && k < |reflector.wiring| ==> reflector.wiring[k] != reflector.indexing[k]
  }

  /** With a reflector that wires no letter to itself, no letter ever lights
      its own lamp. */
  lemma LampNeverSelf(alphabet: seq<char>, stator: Plate, states: seq<RotorState>, reflector: Plate, c: char)
    requires Reciprocal(alphabet, stator, states, reflector) && FixedPointFree(reflector) && c in alphabet
    ensures Lamp(alphabet, stator, states, reflector, c) != Success(c)
  {
    var t := LampTrace(alphabet, stator, states, reflector, c);
    assert reflector.indexing[t.p3] == reflector.wiring[t.p2] != reflector.indexing[t.p2];
    assert t.p4 != t.p1;
    assert t.p5 != t.p0;
    assert alphabet[t.p0] == c;
  }

  // ---------------------------------------------------------------------
  // Stepping the rotors

  /** The rotors' states after a step, and the exception that stopped it. */
  datatype Stepped = Stepped(states: seq<RotorState>, err: Option<Exception>)

  /** Rotor i rotates; when its notch event fires, the machine's handler
      rotates the next rotor the same way, and a notch on the last rotor
      does nothing. The handler runs before rotor i clears its flag, so an
      exception from a later rotor leaves rotor i turned but still armed. An
      exception stops the cascade. */
  function Cascade(states: seq<RotorState>, i: nat, forward: bool): (r: Stepped)
    requires i < |states|
    ensures |r.states| == |states| && r.states[..i] == states[..i]
    ensures var t := Turned(states[i], forward);
      r.states[i] == if r.err.Some? then t.state.(raiseHitNotch := states[i].raiseHitNotch) else t.state
    ensures r.err.Some? ==> forall j :: i <= j < |states| ==> r.states[j].raiseHitNotch == states[j].raiseHitNotch
    decreases |states| - i
  {
    var t := Turned(states[i], forward);
    var next := states[i := t.state];
    if t.err.Some? then Stepped(next, t.err)
    else if t.notch && i + 1 < |states| then
      var r := Cascade(next, i + 1, forward);
      assert next[..i] == states[..i] && r.states[..i] == r.states[..i + 1][..i];
      assert r.states[i] == r.states[..i + 1][i] == t.state;
      if r.err.Some? then Stepped(r.states[i := t.state.(raiseHitNotch := states[i].raiseHitNotch)], r.err)
      else r
    else Stepped(next, None)
  }

  /** Without a notch to pass on, the cascade ends at rotor i. */
  lemma CascadeEnds(states: seq<RotorState>, i: nat, forward: bool)
    requires i < |states|
    requires var t := Turned(states[i], forward); t.err.Some? || !t.notch || i + 1 == |states|
    ensures var t := Turned(states[i], forward); Cascade(states, i, forward) == Stepped(states[i := t.state], t.err)
  {
  }

  /** A notch passed on: the cascade goes on from rotor i + 1, and rotor i
      is armed again if that throws. */
  lemma CascadeOn(states: seq<RotorState>, i: nat, forward: bool)
    requires i + 1 < |states|
    requires var t := Turned(states[i], forward); t.err.None? && t.notch
    ensures var r := Cascade(states[i := Turned(states[i], forward).state], i + 1, forward);
      Cascade(states, i, forward) ==
        if r.err.Some? then Stepped(r.states[i := r.states[i].(raiseHitNotch := true)], r.err) else r
  {
  }

  /** The step of a key press: Rotors[0].Rotate(), which throws
      ArgumentOutOfRangeException on a machine without rotors. */
  function Advance(states: seq<RotorState>): (r: Stepped)
    ensures states == [] ==> r == Stepped(states, Some(ArgumentOutOfRange))
    ensures |r.states| == |states|
  {
    if states == [] then Stepped(states, Some(ArgumentOutOfRange)) else Cascade(states, 0, true)
  }

  /** Sound rotors step without an exception and stay sound, with their
      sizes. */
  lemma {:induction false} CascadeSound(states: seq<RotorState>, n: nat, i: nat, forward: bool)
    requires i < |states| && RotorsOfSize(states, n)
    ensures Cascade(states, i, forward).err.None?
    ensures RotorsOfSize(Cascade(states, i, forward).states, n)
    decreases |states| - i
  {
    var t := Turned(states[i], forward);
    TurnedSound(states[i], forward);
    var next := states[i := t.state];
    assert RotorsOfSize(next, n);
    if t.notch && i + 1 < |states| {
      CascadeSound(next, n, i + 1, forward);
    }
  }

  /** A notch on rotor i (not the last) turns rotor i + 1 in the same
      direction; without a notch the rotors after i stay as they were. */
  lemma CascadeNotch(states: seq<RotorState>, n: nat, i: nat, forward: bool)
    requires i < |states| && RotorsOfSize(states, n)
    ensures var t := Turned(states[i], forward); var r := Cascade(states, i, forward).states;
      r[i] == t.state &&
      (t.notch && i + 1 < |states| ==> r[i + 1] == Turned(states[i + 1], forward).state) &&
      (!t.notch ==> r[i + 1..] == states[i + 1..])
  {
    var t := Turned(states[i], forward);
    TurnedSound(states[i], forward);
    var next := states[i := t.state];
    if t.notch && i + 1 < |states| {
      assert RotorsOfSize(next, n);
      CascadeSound(next, n, i + 1, forward);
      var r := Cascade(next, i + 1, forward);
      assert r.states[..i + 1][i] == next[i];
      assert Turned(next[i + 1], forward) == Turned(states[i + 1], forward);
    }
  }

  /** Run(char): the rotors step, then the current runs through the rotors
      as they now stand; an exception from either ends the press. */
  function Pressed(alphabet: seq<char>, stator: Plate, reflector: Plate, states: seq<RotorState>, c: char)
    : (r: (seq<RotorState>, Result<char>))
    ensures |r.0| == |states|
  {
    var st := Advance(states);
    if st.err.Some? then (st.states, Failure(st.err.value))
    else (st.states, Lamp(alphabet, stator, st.states, reflector, c))
  }

  /** Run(string) without the automatic reset: the first character is
      pressed, then the rest are typed on the rotors as it left them; the
      first exception ends the run with the rotors as they stand. */
  function Typed(alphabet: seq<char>, stator: Plate, reflector: Plate, states: seq<RotorState>, input: string)
    : (r: (seq<RotorState>, Result<string>))
    ensures |r.0| == |states|
    ensures r.1.Success? ==> |r.1.value| == |input|
    decreases |input|
  {
    if input == [] then (states, Success([]))
    else
      var (s, c) := Pressed(alphabet, stator, reflector, states, input[0]);
      if c.Failure? then (s, Failure(c.error))
      else
        var (s', rest) := Typed(alphabet, stator, reflector, s, input[1..]);
        (s', if rest.Failure? then rest else Success([c.value] + rest.value))
  }

  /** One key press on a reciprocal machine: the rotors step as Advance
      says whatever the key, the machine stays reciprocal, the key lights a
      lamp, and pressing that lamp's letter instead lights the key. */
  lemma PressedReciprocal(alphabet: seq<char>, stator: Plate, reflector: Plate, states: seq<RotorState>, c: char)
    requires Reciprocal(alphabet, stator, states, reflector) && states != [] && c in alphabet
    ensures var (s, r) := Pressed(alphabet, stator, reflector, states, c);
      s == Advance(states).states && Reciprocal(alphabet, stator, s, reflector) &&
      r.Success? && r.value in alphabet && Pressed(alphabet, stator, reflector, states, r.value) == (s, Success(c))
  {
    CascadeSound(states, |alphabet|, 0, true);
    LampInvolution(alphabet, stator, Advance(states).states, reflector, c);
  }

  /** How the rotors move does not depend on the keys pressed: two texts of
      the same length, typed on a reciprocal machine, both succeed and
      leave the rotors in the same states, which are again reciprocal. */
  lemma {:induction false} TypedMotion(alphabet: seq<char>, stator: Plate, reflector: Plate,
                                       states: seq<RotorState>, a: string, b: string)
    requires |a| == |b| && Reciprocal(alphabet, stator, states, reflector) && states != []
    requires forall c :: c in a ==> c in alphabet
    requires forall c :: c in b ==> c in alphabet
    ensures Typed(alphabet, stator, reflector, states, a).1.Success?
    ensures Typed(alphabet, stator, reflector, states, a).0 == Typed(alphabet, stator, reflector, states, b).0
    ensures Reciprocal(alphabet, stator, Typed(alphabet, stator, reflector, states, a).0, reflector)
    decreases |a|
  {
    if a != [] {
      PressedReciprocal(alphabet, stator, reflector, states, a[0]);
      PressedReciprocal(alphabet, stator, reflector, states, b[0]);
      var next := Advance(states).states;
      assert forall c :: c in a[1..] ==> c in a;
      assert forall c :: c in b[1..] ==> c in b;
      TypedMotion(alphabet, stator, reflector, next, a[1..], b[1..]);
    }
  }

  /** Typing c and then the rest: c is pressed, and the rest is typed on
      the rotors as the key press left them. */
  lemma TypedCons(alphabet: seq<char>, stator: Plate, reflector: Plate, states: seq<RotorState>, c: char, rest: string)
    ensures var (s, r) := Pressed(alphabet, stator, reflector, states, c);
      Typed(alphabet, stator, reflector, states, [c] + rest) ==
        if r.Failure? then (s, Failure(r.error)) else After([r.value], Typed(alphabet, stator, reflector, s, rest))
  {
    assert ([c] + rest)[0] == c && ([c] + rest)[1..] == rest;
  }

  /** Reciprocity of the machine: started from the same rotor states, typing
      the output of a message gives back the message, and leaves the rotors
      where typing the message left them. */
  lemma {:induction false} TypedTwice(alphabet: seq<char>, stator: Plate, reflector: Plate,
                                      states: seq<RotorState>, m: string)
    requires Reciprocal(alphabet, stator, states, reflector) && states != []
    requires forall c :: c in m ==> c in alphabet
    ensures var (s, r) := Typed(alphabet, stator, reflector, states, m);
      r.Success? && Typed(alphabet, stator, reflector, states, r.value) == (s, Success(m))
    decreases |m|
  {
    if m != [] {
      var c, tail := m[0], m[1..];
      assert m == [c] + tail;
      PressedReciprocal(alphabet, stator, reflector, states, c);
      var (next, d) := Pressed(alphabet, stator, reflector, states, c);
      assert forall x :: x in tail ==> x in m;
      TypedTwice(alphabet, stator, reflector, next, tail);
      var rest := Typed(alphabet, stator, reflector, next, tail);
      TypedCons(alphabet, stator, reflector, states, c, tail);
      TypedCons(alphabet, stator, reflector, states, d.value, rest.1.value);
    }
  }

  // ---------------------------------------------------------------------
  // Windows, rotor configuration and resetting

  /** Windows: the window letter of each rotor in order; a rotor with an
      empty etching throws ArgumentOutOfRangeException. */
  function WindowsOf(states: seq<RotorState>): (r: Result<seq<char>>)
    ensures r.Success? <==> forall i :: 0 <= i < |states| ==> states[i].indexing != []
    ensures r.Success? ==> |r.value| == |states|
    ensures r.Success? ==> forall i :: 0 <= i < |states| ==> r.value[i] == states[i].indexing[0]
    ensures r.Failure? ==> r.error == ArgumentOutOfRange
  {
    if states == [] then Success([])
    else if states[0].indexing == [] then Failure(ArgumentOutOfRange)
    else match WindowsOf(states[1..])
      case Failure(e) => Failure(e)
      case Success(rest) =>
        assert forall i :: 1 <= i < |states| ==> states[i] == states[1..][i - 1];
        Success([states[0].indexing[0]] + rest)
  }

  /** RotorConfig: the alphabet index of each window letter (-1 for a letter
      outside the alphabet). */
  function ConfigOf(alphabet: seq<char>, states: seq<RotorState>): (r: Result<seq<int>>)
    ensures r.Success? <==> WindowsOf(states).Success?
    ensures r.Failure? ==> r.error == ArgumentOutOfRange
    ensures r.Success? ==> |r.value| == |states|
    ensures r.Success? ==> forall i :: 0 <= i < |states| ==>
      -1 <= r.value[i] < |alphabet| &&
      (r.value[i] >= 0 <==> states[i].indexing[0] in alphabet) &&
      (r.value[i] >= 0 ==> alphabet[r.value[i]] == states[i].indexing[0])
  {
    match WindowsOf(states)
      case Failure(e) => Failure(e)
      case Success(w) => Success(Indices(alphabet, w))
  }

  /** The loop of RotorConfig: the alphabet index of each window letter, in
      order. */
  method IndicesOf(alphabet: seq<char>, w: seq<char>) returns (list: seq<int>)
    ensures list == Indices(alphabet, w)
  {
    list := [];
    for i := 0 to |w|
      invariant |list| == i && forall k :: 0 <= k < i ==> list[k] == IndexOf(alphabet, w[k])
    {
      list := list + [IndexOf(alphabet, w[i])];
    }
  }

  /** The alphabet index of each letter. */
  function Indices(alphabet: seq<char>, w: seq<char>): (r: seq<int>)
    ensures |r| == |w| && forall i :: 0 <= i < |w| ==> r[i] == IndexOf(alphabet, w[i])
  {
    seq(|w|, i requires 0 <= i < |w| => IndexOf(alphabet, w[i]))
  }

  /** The letter ResetRotors brings rotor i to: the key's letter i, or the
      alphabet's first letter when there is no key. An empty alphabet throws
      ArgumentOutOfRangeException, a key shorter than the rotors
      IndexOutOfRangeException. */
  function WindowFor(alphabet: seq<char>, key: string, i: nat): (r: Result<char>)
    ensures key != [] ==> (r.Success? <==> i < |key|)
    ensures key == [] ==> (r.Success? <==> alphabet != [])
    ensures r.Success? ==> r.value == if key == [] then alphabet[0] else key[i]
  {
    if key == [] then
      if alphabet == [] then Failure(ArgumentOutOfRange) else Success(alphabet[0])
    else if i < |key| then Success(key[i])
    else Failure(IndexOutOfRange)
  }

  /** ResetRotors over the first n rotors: each is Reset to its window
      letter in turn; the first exception stops the loop. */
  function Resets(states: seq<RotorState>, alphabet: seq<char>, key: string, n: nat): (r: Stepped)
    requires n <= |states|
    ensures |r.states| == |states|
    ensures forall j :: n <= j < |states| ==> r.states[j] == states[j]
  {
    if n == 0 then Stepped(states, None)
    else
      var prev := Resets(states, alphabet, key, n - 1);
      if prev.err.Some? then prev
      else match WindowFor(alphabet, key, n - 1)
        case Failure(e) => Stepped(prev.states, Some(e))
        case Success(w) =>
          var (t, err) := Realigned(prev.states[n - 1], w);
          Stepped(prev.states[n - 1 := t], err)
  }

  /** Rotor i's window letter is one of its index letters. */
  predicate WindowsAvailable(states: seq<RotorState>, alphabet: seq<char>, key: string)
  {
    forall i :: 0 <= i < |states| ==>
      WindowFor(alphabet, key, i).Success? && WindowFor(alphabet, key, i).value in states[i].indexing
  }

  /** What holds once the first k rotors of sound rotors have been reset:
      no exception, and each of them is sound and shows its window letter. */
  ghost predicate ResetUpTo(states: seq<RotorState>, alphabet: seq<char>, key: string, k: nat)
    requires k <= |states|
  {
    var z := Resets(states, alphabet, key, k);
    z.err.None? &&
    forall i :: 0 <= i < k ==> Sound(z.states[i]) && z.states[i].indexing[0] == WindowFor(alphabet, key, i).value
  }

  lemma ResetsNext(states: seq<RotorState>, alphabet: seq<char>, key: string, k: nat)
    requires k < |states| && Sound(states[k]) && WindowsAvailable(states, alphabet, key)
    requires ResetUpTo(states, alphabet, key, k)
    ensures ResetUpTo(states, alphabet, key, k + 1)
  {
    var prev := Resets(states, alphabet, key, k);
    var w := WindowFor(alphabet, key, k).value;
    assert prev.states[k] == states[k];
    RealignedWindow(states[k], w);
  }

  lemma {:induction false} ResetsFrom(states: seq<RotorState>, alphabet: seq<char>, key: string, k: nat)
    requires k <= |states| && WindowsAvailable(states, alphabet, key)
    requires forall i :: 0 <= i < |states| ==> Sound(states[i])
    requires ResetUpTo(states, alphabet, key, k)
    ensures ResetUpTo(states, alphabet, key, |states|)
    decreases |states| - k
  {
    if k < |states| {
      ResetsNext(states, alphabet, key, k);
      ResetsFrom(states, alphabet, key, k + 1);
    }
  }

  /** ResetRotors on sound rotors whose window letters they carry: no
      exception, the rotors stay sound, and the windows then read the key
      (or the alphabet's first letter on every rotor when there is no key). */
  lemma ResetsToKey(states: seq<RotorState>, alphabet: seq<char>, key: string)
    requires WindowsAvailable(states, alphabet, key)
    requires forall i :: 0 <= i < |states| ==> Sound(states[i])
    ensures var z := Resets(states, alphabet, key, |states|);
      z.err.None? && (forall i :: 0 <= i < |states| ==> Sound(z.states[i])) &&
      WindowsOf(z.states).Success? &&
      (key != [] ==> WindowsOf(z.states).value == key[..|states|]) &&
      (key == [] ==> forall i :: 0 <= i < |states| ==> WindowsOf(z.states).value[i] == alphabet[0])
  {
    ResetsFrom(states, alphabet, key, 0);
  }

  /** The output of the characters already typed, put in front of what the
      rest of the input gives. */
  function After(output: string, rest: (seq<RotorState>, Result<string>)): (seq<RotorState>, Result<string>)
  {
    (rest.0, if rest.1.Failure? then rest.1 else Success(output + rest.1.value))
  }

  /** Resets over one more rotor, in terms of the rotors before it. */
  lemma ResetsSucc(states: seq<RotorState>, alphabet: seq<char>, key: string, k: nat)
    requires k < |states|
    ensures var prev := Resets(states, alphabet, key, k);
      Resets(states, alphabet, key, k + 1) ==
        if prev.err.Some? then prev
        else match WindowFor(alphabet, key, k)
          case Failure(e) => Stepped(prev.states, Some(e))
          case Success(w) =>
            var (t, err) := Realigned(prev.states[k], w);
            Stepped(prev.states[k := t], err)
  {
  }

  /** After an exception the loop goes no further. */
  lemma ResetsKeep(states: seq<RotorState>, alphabet: seq<char>, key: string, k: nat)
    requires k < |states| && Resets(states, alphabet, key, k).err.Some?
    ensures Resets(states, alphabet, key, k + 1) == Resets(states, alphabet, key, k)
  {
  }

  /** An exception from rotor k's reset is the outcome of the whole loop. */
  lemma {:induction false} ResetsStop(states: seq<RotorState>, alphabet: seq<char>, key: string, k: nat, n: nat)
    requires k <= n <= |states| && Resets(states, alphabet, key, k).err.Some?
    ensures Resets(states, alphabet, key, n) == Resets(states, alphabet, key, k)
    decreases n - k
  {
    if k < n {
      var m := k + 1;
      ResetsKeep(states, alphabet, key, k);
      ResetsStop(states, alphabet, key, m, n);
    }
  }

  /** Typing from character i on: one press, then the rest. */
  lemma TypedFrom(alphabet: seq<char>, stator: Plate, reflector: Plate, states: seq<RotorState>,
                  input: string, i: nat, output: string)
    requires i < |input|
    ensures var (s, c) := Pressed(alphabet, stator, reflector, states, input[i]);
      After(output, Typed(alphabet, stator, reflector, states, input[i..])) ==
        if c.Failure? then (s, Failure(c.error))
        else After(output + [c.value], Typed(alphabet, stator, reflector, s, input[i + 1..]))
  {
    assert input[i..][0] == input[i] && input[i..][1..] == input[i + 1..];
    var (s, c) := Pressed(alphabet, stator, reflector, states, input[i]);
    if c.Success? {
      var rest := Typed(alphabet, stator, reflector, s, input[i + 1..]);
      if rest.1.Success? {
        assert output + ([c.value] + rest.1.value) == output + [c.value] + rest.1.value;
      }
    }
  }

  /** The rotors of a machine, read one by one. */
  function StatesOf(rotors: seq<Rotor>): (r: seq<RotorState>)
    reads rotors
    ensures |r| == |rotors| && forall i :: 0 <= i < |rotors| ==> r[i] == rotors[i].State()
  {
    if rotors == [] then []
    else
      var rest := StatesOf(rotors[1..]);
      assert forall i :: 1 <= i < |rotors| ==> rotors[i] == rotors[1..][i - 1];
      [rotors[0].State()] + rest
  }

  /** An Enigma machine: its alphabet and key, the rotors in the order the
      current first meets them, the stator and the reflector. */
  class EnigmaMachine {
    var alphabet: seq<char>
    var key: string
    var autoReset: bool
    var rotors: seq<Rotor>
    var stator: EnigmaWheel
    var reflector: EnigmaWheel

    /** EnigmaMachine(rotors), with the alphabet, key, stator and reflector
        it needs before it can run; AutoReset starts off. */
    constructor(alphabet: seq<char>, key: string, rotors: seq<Rotor>, stator: EnigmaWheel, reflector: EnigmaWheel)
      ensures this.alphabet == alphabet && this.key == key && this.rotors == rotors
      ensures this.stator == stator && this.reflector == reflector && !autoReset
    {
      this.alphabet := alphabet;
      this.key := key;
      this.rotors := rotors;
      this.stator := stator;
      this.reflector := reflector;
      this.autoReset := false;
    }

    /** Each rotor is in the machine once, so the notch handler finds rotor
        i at index i. */
    predicate Valid()
      reads this
    {
      forall i, j :: 0 <= i < j < |rotors| ==> rotors[i] != rotors[j]
    }

    function States(): seq<RotorState>
      reads this, rotors
    {
      StatesOf(rotors)
    }

    function Stator(): Plate
      reads this, stator
    {
      Plate(stator.indexing, stator.wiring)
    }

    function Reflector(): Plate
      reads this, reflector
    {
      Plate(reflector.indexing, reflector.wiring)
    }

    /** Rotors[i].Rotate(forward): only rotor i changes. */
    method RotateAt(i: nat, forward: bool) returns (notch: bool, err: Option<Exception>)
      requires Valid() && i < |rotors|
      modifies rotors[i]
      ensures var t := Turned(old(States())[i], forward);
        States() == old(States())[i := t.state] && notch == t.notch && err == t.err
    {
      notch, err := rotors[i].Rotate(forward);
      assert forall j :: 0 <= j < |rotors| && j != i ==> rotors[j].State() == old(rotors[j].State());
    }

    /** Rotors[i].Reset(window): only rotor i changes. */
    method ResetAt(i: nat, window: char) returns (err: Option<Exception>)
      requires Valid() && i < |rotors|
      modifies rotors[i]
      ensures var (t, e) := Realigned(old(States())[i], window);
        States() == old(States())[i := t] && err == e
    {
      err := rotors[i].Reset(window);
      assert forall j :: 0 <= j < |rotors| && j != i ==> rotors[j].State() == old(rotors[j].State());
    }

    /** Rotors[i].Rotate() with the machine's notch handler attached: a
        notch rotates rotor i + 1 inside the handler. Rotate clears rotor
        i's flag on its own; when the handler's rotation throws, the flag is
        set again, since in the program the clearing after the handler never
        runs. */
    method CascadeFrom(i: nat) returns (err: Option<Exception>)
      requires Valid() && i < |rotors|
      modifies rotors
      ensures Stepped(States(), err) == Cascade(old(States()), i, true)
      decreases |rotors| - i
    {
      ghost var s0 := States();
      var notch;
      notch, err := RotateAt(i, true);
      if err.Some? || !notch || i + 1 == |rotors| {
        CascadeEnds(s0, i, true);
        return;
      }
      CascadeOn(s0, i, true);
      err := CascadeFrom(i + 1);
      if err.Some? {
        RearmAt(i);
      }
    }

    /** Rotor i's notch flag set again; nothing else changes. */
    method RearmAt(i: nat)
      requires Valid() && i < |rotors|
      modifies rotors[i]
      ensures States() == old(States())[i := old(States())[i].(raiseHitNotch := true)]
    {
      rotors[i].raiseHitNotch := true;
      assert forall j :: 0 <= j < |rotors| && j != i ==> rotors[j].State() == old(rotors[j].State());
    }

    /** The step of a key press: Rotors[0].Rotate(), with the notch handler
        (OnRotorHitNotch) rotating the next rotor each time one fires. */
    method Step() returns (err: Option<Exception>)
      requires Valid()
      modifies rotors
      ensures Stepped(States(), err) == Advance(old(States()))
    {
      if |rotors| == 0 {
        return Some(ArgumentOutOfRange);
      }
      err := CascadeFrom(0);
    }

    /** The current forwards through the rotors in order. */
    method Forwards(pin: Result<int>) returns (r: Result<int>)
      ensures r == Forward(States(), pin)
    {
      ghost var states := States();
      r := pin;
      for i := 0 to |rotors|
        invariant r == Forward(states[..i], pin)
      {
        assert states[..i + 1][..i] == states[..i];
        r := Through(rotors[i].indexing, rotors[i].wiring, r, true);
      }
      assert states[..|rotors|] == states;
    }

    /** The current back through the rotors in reverse order. */
    method Backwards(pin: Result<int>) returns (r: Result<int>)
      ensures r == Backward(States(), pin)
    {
      ghost var states := States();
      r := pin;
      var i := |rotors|;
      assert states[..i] == states;
      while i > 0
        invariant 0 <= i <= |rotors|
        invariant Backward(states, pin) == Backward(states[..i], r)
      {
        assert states[..i][..i - 1] == states[..i - 1];
        r := Through(rotors[i - 1].indexing, rotors[i - 1].wiring, r, false);
        i := i - 1;
      }
    }

    /** The current from a key to its lamp with the rotors standing still. */
    method Signal(c: char) returns (r: Result<char>)
      ensures r == Lamp(alphabet, Stator(), States(), Reflector(), c)
    {
      var pin := stator.GetPath(IndexOf(alphabet, c), true);
      pin := Forwards(pin);
      pin := Through(reflector.indexing, reflector.wiring, pin, true);
      pin := Backwards(pin);
      pin := Through(stator.indexing, stator.wiring, pin, false);
      if pin.Failure? {
        return Failure(pin.error);
      }
      if 0 <= pin.value < |alphabet| {
        r := Success(alphabet[pin.value]);
      } else {
        r := Failure(ArgumentOutOfRange);
      }
    }

    /** Run(char): a key press; the rotors step, then the current runs from
        the key to the lamp through the wheels as they now stand. */
    method RunChar(c: char) returns (r: Result<char>)
      requires Valid()
      modifies rotors
      ensures (States(), r) == Pressed(alphabet, Stator(), Reflector(), old(States()), c)
    {
      var err := Step();
      if err.Some? {
        return Failure(err.value);
      }
      r := Signal(c);
    }

    /** ResetRotors(): every rotor Reset to its window letter in turn. */
    method ResetRotors() returns (err: Option<Exception>)
      requires Valid()
      modifies rotors
      ensures Stepped(States(), err) == Resets(old(States()), alphabet, key, |rotors|)
    {
      ghost var s0 := States();
      for i := 0 to |rotors|
        invariant Resets(s0, alphabet, key, i) == Stepped(States(), None)
      {
        ResetsSucc(s0, alphabet, key, i);
        var w := WindowFor(alphabet, key, i);
        if w.Failure? {
          ResetsStop(s0, alphabet, key, i + 1, |rotors|);
          return Some(w.error);
        }
        err := ResetAt(i, w.value);
        if err.Some? {
          ResetsStop(s0, alphabet, key, i + 1, |rotors|);
          return;
        }
      }
      err := None;
    }

    /** Run(input[i]) inside Run(input, forward): what is left to type
        after the key press gives the same result. */
    method PressNext(input: string, i: nat, ghost output: string) returns (c: Result<char>)
      requires Valid() && i < |input|
      modifies rotors
      ensures var rest := After(output, Typed(alphabet, Stator(), Reflector(), old(States()), input[i..]));
        if c.Failure? then rest == (States(), Failure(c.error))
        else rest == After(output + [c.value], Typed(alphabet, Stator(), Reflector(), States(), input[i + 1..]))
    {
      ghost var s0, st, rf := States(), Stator(), Reflector();
      TypedFrom(alphabet, st, rf, s0, input, i, output);
      c := RunChar(input[i]);
      assert (States(), c) == Pressed(alphabet, st, rf, s0, input[i]);
      assert Stator() == st && Reflector() == rf;
    }

    /** The loop of Run(input, forward): each character pressed in turn;
        the first exception ends it. */
    method TypeAll(input: string) returns (r: Result<string>)
      requires Valid()
      modifies rotors
      ensures (States(), r) == Typed(alphabet, Stator(), Reflector(), old(States()), input)
    {
      ghost var t0 := Typed(alphabet, Stator(), Reflector(), States(), input);
      var output := [];
      assert input[0..] == input;
      assert t0.1.Success? ==> [] + t0.1.value == t0.1.value;
      for i := 0 to |input|
        invariant t0 == After(output, Typed(alphabet, Stator(), Reflector(), States(), input[i..]))
      {
        var c := PressNext(input, i, output);
        if c.Failure? {
          return Failure(c.error);
        }
        output := output + [c.value];
      }
      assert input[|input|..] == [] && output + [] == output;
      r := Success(output);
    }

    /** Run(input, forward): the characters typed (the direction plays no
        part), then, with AutoReset, ResetRotors. */
    method Run(input: string, forward: bool) returns (r: Result<string>)
      requires Valid()
      modifies rotors
      ensures var (s, t) := Typed(alphabet, Stator(), Reflector(), old(States()), input);
        if t.Failure? || !autoReset then States() == s && r == t
        else
          var z := Resets(s, alphabet, key, |rotors|);
          States() == z.states && r == if z.err.Some? then Failure(z.err.value) else t
    {
      r := TypeAll(input);
      if r.Success? && autoReset {
        var err := ResetRotors();
        if err.Some? {
          r := Failure(err.value);
        }
      }
    }

    /** Windows: the letters in the rotors' windows. */
    method Windows() returns (r: Result<seq<char>>)
      ensures r == WindowsOf(States())
    {
      var list := [];
      for i := 0 to |rotors|
        invariant |list| == i
        invariant forall k :: 0 <= k < i ==> rotors[k].indexing != [] && list[k] == rotors[k].indexing[0]
      {
        var w := rotors[i].Window();
        if w.Failure? {
          assert States()[i].indexing == [];
          return Failure(w.error);
        }
        list := list + [w.value];
      }
      assert WindowsOf(States()).Success?;
      assert list == WindowsOf(States()).value;
      r := Success(list);
    }

    /** RotorConfig: the alphabet index of each window letter. */
    method RotorConfig() returns (r: Result<seq<int>>)
      ensures r == ConfigOf(alphabet, States())
    {
      var windows := Windows();
      if windows.Failure? {
        return Failure(windows.error);
      }
      var list := IndicesOf(alphabet, windows.value);
      r := Success(list);
    }
  }
}
