/** An Enigma rotor: a wheel whose index etching and wiring turn together one
    pin at a time, with turnover letters that make it signal a notch to the
    machine on the step after one of them reaches the window. */
module Rotors {
  import opened Wrappers
  import opened Text
  import opened Collections
  import opened EnigmaWheels
  import Arith

  /** What a rotor holds: its two lists, its turnover letters (null for a
      rotor built without any) and the flag that arms the notch event. */
  datatype RotorState = RotorState(indexing: seq<char>, wiring: seq<char>, turnOver: Option<seq<char>>, raiseHitNotch: bool)

  /** The rotation offset of Rotate(forward). */
  function Offset(forward: bool): (r: int)
    ensures r == 1 || r == -1
  {
    if forward then 1 else -1
  }

  /** IsTurnOver(): whether the window letter is a turnover letter. The
      window of an empty etching throws ArgumentOutOfRangeException, and a
      rotor without turnover letters throws NullReferenceException. */
  function TurnOverAt(s: RotorState): (r: Result<bool>)
    ensures s.indexing == [] ==> r == Failure(ArgumentOutOfRange)
    ensures s.indexing != [] && s.turnOver.None? ==> r == Failure(NullReference)
    ensures r.Success? <==> s.indexing != [] && s.turnOver.Some?
    ensures r.Success? ==> (r.value <==> s.indexing[0] in s.turnOver.value)
  {
    if s.indexing == [] then Failure(ArgumentOutOfRange)
    else if s.turnOver.None? then Failure(NullReference)
    else Success(s.indexing[0] in s.turnOver.value)
  }

  /** The outcome of one Rotate: the new state, whether the notch event
      fired, and the exception that stopped it, if any. */
  datatype Turn = Turn(state: RotorState, notch: bool, err: Option<Exception>)

  /** The step of Rotate with both lists turned `places` places (rotating an
      empty list throws, the etching first); then an armed flag fires the
      notch event and is cleared, and an unarmed one is armed when a
      turnover letter has come into the window. */
  function TurnedBy(s: RotorState, places: int): (r: Turn)
    requires places != 0
    ensures r.err.None? <==> s.indexing != [] && s.wiring != [] && (s.raiseHitNotch || s.turnOver.Some?)
    ensures r.err.Some? ==> !r.notch && r.state.raiseHitNotch == s.raiseHitNotch
    ensures r.err.None? ==>
      r.state.indexing == Rotated(s.indexing, places) &&
      r.state.wiring == Rotated(s.wiring, places)
    ensures r.state.turnOver == s.turnOver
    ensures r.notch <==> r.err.None? && s.raiseHitNotch
    ensures r.notch ==> !r.state.raiseHitNotch
    ensures r.err.None? && !s.raiseHitNotch ==>
      (r.state.raiseHitNotch <==> r.state.indexing[0] in s.turnOver.value)
  {
    if s.indexing == [] then Turn(s, false, Some(ArgumentOutOfRange))
    else
      var indexing := Rotated(s.indexing, places);
      if s.wiring == [] then Turn(s.(indexing := indexing), false, Some(ArgumentOutOfRange))
      else
        var t := s.(indexing := indexing, wiring := Rotated(s.wiring, places));
        if s.raiseHitNotch then Turn(t.(raiseHitNotch := false), true, None)
        else match TurnOverAt(t)
          case Failure(e) => Turn(t, false, Some(e))
          case Success(b) => Turn(t.(raiseHitNotch := b), false, None)
  }

  /** Rotate(forward) as written: the offset +1 or -1 goes to List.Rotate,
      which turns the lists one place forward, but two places back. */
  function Turned(s: RotorState, forward: bool): (r: Turn)
    ensures forward && r.err.None? ==>
      r.state.indexing == Rotated(s.indexing, 1) && r.state.wiring == Rotated(s.wiring, 1)
    ensures !forward && r.err.None? ==>
      r.state.indexing == Rotated(s.indexing, -2) && r.state.wiring == Rotated(s.wiring, -2)
  {
    TurnedBy(s, AsWrittenSteps(Offset(forward)))
  }

  /** Rotate(forward) with the rotation corrected to one place either way. */
  function TurnedCorrected(s: RotorState, forward: bool): (r: Turn)
    ensures r.err.None? ==>
      r.state.indexing == Rotated(s.indexing, Offset(forward)) &&
      r.state.wiring == Rotated(s.wiring, Offset(forward))
  {
    TurnedBy(s, Offset(forward))
  }

  /** A rotor whose two lists are arrangements of the same distinct letters
      and which has turnover letters. */
  predicate Sound(s: RotorState)
  {
    Wheel(s.indexing, s.wiring) && s.indexing != [] && s.turnOver.Some?
  }

  /** Turning both lists of a sound rotor by the same offset keeps it sound. */
  lemma RotatedSound(s: RotorState, k: int)
    requires Sound(s)
    ensures Sound(s.(indexing := Rotated(s.indexing, k), wiring := Rotated(s.wiring, k)))
  {
    RotatedDistinct(s.indexing, k);
    RotatedDistinct(s.wiring, k);
    RotatedMembers(s.indexing, k);
    RotatedMembers(s.wiring, k);
  }

  /** Rotating a sound rotor never throws and leaves it sound, with the same
      letters, so a rotor stays a wheel however far it is turned. */
  lemma TurnedSound(s: RotorState, forward: bool)
    requires Sound(s)
    ensures Turned(s, forward).err.None?
    ensures Sound(Turned(s, forward).state)
  {
    RotatedSound(s, AsWrittenSteps(Offset(forward)));
  }

  /** List.Rotate(1) and then List.Rotate(-1), as written, leave a list one
      place back from where it started. */
  lemma ForwardThenBack<T>(s: seq<T>)
    ensures Rotated(Rotated(s, 1), -2) == Rotated(s, -1)
  {
    if s != [] {
      var t := Rotated(s, 1);
      RotatedInverse(s, 1);
      RotatedTailToHead(t, -1);
      RotatedZero(s);
      RotatedTailToHead(s, 0);
    }
  }

  /** Rotate(true) and then Rotate(false) do not bring a rotor back: as
      written, both lists end one pin back from where they started, so a
      rotor of two or more letters shows another letter in the window. */
  lemma TurnBack(s: RotorState)
    requires Sound(s)
    ensures var t := Turned(s, true).state; var u := Turned(t, false).state;
      u.indexing == Rotated(s.indexing, -1) && u.wiring == Rotated(s.wiring, -1)
    ensures var t := Turned(s, true).state; var u := Turned(t, false).state;
      |s.indexing| >= 2 ==> u.indexing[0] == s.indexing[|s.indexing| - 1] != s.indexing[0]
  {
    TurnedSound(s, true);
    ForwardThenBack(s.indexing);
    ForwardThenBack(s.wiring);
    var n := |s.indexing|;
    RotatedAt(s.indexing, -1, 0);
    Arith.ModUnique(-1, n, -1, n - 1);
  }

  /** With the corrected rotation, turning back undoes turning forward on
      the two lists: they come back to where they were, still aligned pin
      for pin. */
  lemma TurnBackCorrected(s: RotorState)
    requires Sound(s)
    ensures var t := TurnedCorrected(s, true).state; var u := TurnedCorrected(t, false).state;
      u.indexing == s.indexing && u.wiring == s.wiring
  {
    RotatedSound(s, 1);
    RotatedInverse(s.indexing, 1);
    RotatedInverse(s.wiring, 1);
  }

  /** The notch fires on the rotation after the one that brings a turnover
      letter into the window, and that rotation clears the flag. */
  lemma NotchOnNextStep(s: RotorState, forward: bool, forward': bool)
    requires Sound(s) && !s.raiseHitNotch
    ensures var t := Turned(s, forward);
      t.state.raiseHitNotch <==> t.state.indexing[0] in s.turnOver.value
    ensures var t := Turned(s, forward); var u := Turned(t.state, forward');
      !t.notch && (u.notch <==> t.state.raiseHitNotch) && (u.notch ==> !u.state.raiseHitNotch)
  {
    TurnedSound(s, forward);
    TurnedSound(Turned(s, forward).state, forward');
  }

  /** Reset(window): List.Rotate as written with the index of the window
      letter in the etching, so a letter the etching lacks (index -1) turns
      both lists two places back; no notch event is raised. An empty list
      throws when the offset is not zero, the etching first. */
  function Realigned(s: RotorState, window: char): (r: (RotorState, Option<Exception>))
    ensures r.0.raiseHitNotch == s.raiseHitNotch && r.0.turnOver == s.turnOver
  {
    var offset := AsWrittenSteps(IndexOf(s.indexing, window));
    if s.indexing == [] && offset != 0 then (s, Some(ArgumentOutOfRange))
    else
      var t := s.(indexing := Rotated(s.indexing, offset));
      if s.wiring == [] && offset != 0 then (t, Some(ArgumentOutOfRange))
      else (t.(wiring := Rotated(s.wiring, offset)), None)
  }

  /** Reset(w) for a letter w the etching lacks does not leave the rotor
      where it was: both lists turn two places back, so a rotor of three or
      more letters shows another letter in the window. */
  lemma RealignedMissing(s: RotorState, window: char)
    requires s.indexing != [] && s.wiring != [] && window !in s.indexing
    ensures var (t, err) := Realigned(s, window);
      err.None? && t.indexing == Rotated(s.indexing, -2) && t.wiring == Rotated(s.wiring, -2)
    ensures Distinct(s.indexing) && |s.indexing| >= 3 ==>
      Realigned(s, window).0.indexing[0] == s.indexing[|s.indexing| - 2] != s.indexing[0]
  {
    var n := |s.indexing|;
    assert IndexOf(s.indexing, window) == -1;
    if n >= 3 {
      RotatedAt(s.indexing, -2, 0);
      Arith.ModUnique(-2, n, -1, n - 2);
    }
  }

  /** After Reset(w) for a letter w of the etching the window shows w, both
      lists are turned by the same offset and stay a wheel. */
  lemma RealignedWindow(s: RotorState, window: char)
    requires Sound(s) && window in s.indexing
    ensures var (t, err) := Realigned(s, window);
      err.None? && t.indexing[0] == window && Sound(t) &&
      exists k :: t.indexing == Rotated(s.indexing, k) && t.wiring == Rotated(s.wiring, k)
  {
    var k := IndexOf(s.indexing, window);
    assert AsWrittenSteps(k) == k;
    var t := s.(indexing := Rotated(s.indexing, k), wiring := Rotated(s.wiring, k));
    assert Realigned(s, window) == (t, None);
    Arith.ModUnique(k, |s.indexing|, 0, k);
    assert t.indexing == s.indexing[k..] + s.indexing[..k];
    RotatedSound(s, k);
  }

  /** A rotor, built from an index etching, a wiring and turnover letters. */
  class Rotor {
    var indexing: seq<char>
    var wiring: seq<char>
    var turnOver: Option<seq<char>>
    var raiseHitNotch: bool

    /** Rotor(indexing, wiring, turnOvers): the etching and wiring become
        alphabets, dropping repeats; the turnover letters are kept as given
        (a single turnover character is the one-letter string). */
    constructor(indexing: string, wiring: string, turnOvers: string)
      ensures State() == RotorState(Dedup(indexing), Dedup(wiring), Some(turnOvers), false)
    {
      this.indexing := Dedup(indexing);
      this.wiring := Dedup(wiring);
      this.turnOver := Some(turnOvers);
      this.raiseHitNotch := false;
    }

    /** Rotor(indexing, wiring): no turnover letters (TurnOver stays null). */
    constructor Plain(indexing: string, wiring: string)
      ensures State() == RotorState(Dedup(indexing), Dedup(wiring), None, false)
    {
      this.indexing := Dedup(indexing);
      this.wiring := Dedup(wiring);
      this.turnOver := None;
      this.raiseHitNotch := false;
    }

    function State(): RotorState
      reads this
    {
      RotorState(indexing, wiring, turnOver, raiseHitNotch)
    }

    /** Window: the letter at the front of the etching. */
    function Window(): (r: Result<char>)
      reads this
      ensures r.Success? <==> indexing != []
      ensures r.Success? ==> r.value == indexing[0]
      ensures r.Failure? ==> r.error == ArgumentOutOfRange
    {
      if indexing == [] then Failure(ArgumentOutOfRange) else Success(indexing[0])
    }

    /** GetPath(pin, forward), inherited from the wheel: as Path says. */
    function GetPath(pin: int, forward: bool): Result<int>
      reads this
    {
      Path(indexing, wiring, pin, forward)
    }

    /** IsTurnOver(). */
    function IsTurnOver(): (r: Result<bool>)
      reads this
      ensures r == TurnOverAt(State())
    {
      TurnOverAt(State())
    }

    /** Rotate(forward): the step Turned describes; notch tells whether the
        HitNotch event was raised. The lists go through List.Rotate as
        written. */
    method Rotate(forward: bool) returns (notch: bool, err: Option<Exception>)
      modifies this
      ensures var t := Turned(old(State()), forward);
        State() == t.state && notch == t.notch && err == t.err
    {
      var offset := Offset(forward);
      var r := Collections.RotateAsWritten(indexing, offset);
      if r.Failure? {
        return false, Some(r.error);
      }
      indexing := r.value;
      r := Collections.RotateAsWritten(wiring, offset);
      if r.Failure? {
        return false, Some(r.error);
      }
      wiring := r.value;
      notch := false;
      if raiseHitNotch {
        notch := true;
        raiseHitNotch := false;
      } else {
        var turn := IsTurnOver();
        if turn.Failure? {
          return false, Some(turn.error);
        }
        if turn.value {
          raiseHitNotch := true;
        }
      }
      err := None;
    }

    /** Reset(window): the step Realigned describes. */
    method Reset(window: char) returns (err: Option<Exception>)
      modifies this
      ensures (State(), err) == Realigned(old(State()), window)
    {
      var offset := IndexOf(indexing, window);
      var r := Collections.RotateAsWritten(indexing, offset);
      if r.Failure? {
        return Some(r.error);
      }
      indexing := r.value;
      r := Collections.RotateAsWritten(wiring, offset);
      if r.Failure? {
        return Some(r.error);
      }
      wiring := r.value;
      err := None;
    }
  }
}
