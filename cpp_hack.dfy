/** The dictionary side of the C++ console tool: loading the word list into
    the fixed-size global array, the dictionary check, the check that allows a
    leading "A", "AN" or "I", and the Vigenère hack that tries dictionary words
    as keys. The check loops as written never accept through a real match and
    the buffers handed to the dictionary check after a leading "A" or "I" are
    unterminated; each is modelled as written and next to it as evidently
    intended. */
module CppHack {
  import opened Wrappers
  import opened Text
  import opened CppTool

  /** The global dictionary: DictionarySize entries, "" where no word was
      loaded. */
  type Dictionary = d: seq<string> | |d| == DictionarySize witness seq(DictionarySize, i => "")

  // ---------------------------------------------------------------------
  // load_dictionary

  /** The dictionary after loading: each line upper-cased with its blanks
      removed, in file order, then empty entries. */
  function Loaded(lines: seq<string>): (d: Dictionary)
    requires |lines| <= DictionarySize
    ensures forall i :: 0 <= i < |lines| ==> d[i] == RemoveSpaces(Upper(lines[i]))
    ensures forall i :: |lines| <= i < DictionarySize ==> d[i] == ""
  {
    seq(DictionarySize, i requires 0 <= i < DictionarySize =>
      if i < |lines| then RemoveSpaces(Upper(lines[i])) else "")
  }

  /** load_dictionary over the file's lines: every line goes to the next
      slot; a file with more lines than slots writes past the array. */
  method LoadDictionary(lines: seq<string>) returns (r: Result<Dictionary>)
    ensures |lines| <= DictionarySize ==> r == Success(Loaded(lines))
    ensures |lines| > DictionarySize ==> r == Failure(UndefinedBehaviour)
  {
    var dictionary: seq<string> := seq(DictionarySize, i => "");
    var loader := 0;
    while loader < |lines|
      invariant 0 <= loader <= |lines| && loader <= DictionarySize && |dictionary| == DictionarySize
      invariant forall i :: 0 <= i < loader ==> dictionary[i] == RemoveSpaces(Upper(lines[i]))
      invariant forall i :: loader <= i < DictionarySize ==> dictionary[i] == ""
    {
      if loader == DictionarySize {
        return Failure(UndefinedBehaviour);
      }
      var word := ToUpper(lines[loader]);
      word := RemoveSpace(word);
      dictionary := dictionary[loader := word];
      loader := loader + 1;
    }
    assert |lines| <= DictionarySize ==> dictionary == Loaded(lines);
    return Success(dictionary);
  }

  // ---------------------------------------------------------------------
  // dict_check as written

  /** The guard of the outer loop: the entry has more than one letter and is
      no longer than the input. */
  predicate Guarded(entry: string, input: string)
  {
    |entry| > 1 && |input| >= |entry|
  }

  /** The outer loop of dict_check as written, from entry i: an entry that
      fails the guard leaves `sally` true and accepts; an entry that passes it
      starts the inner loop. */
  function ScanAsWritten(dict: seq<string>, input: string, i: nat): Result<bool>
    decreases |dict| - i, 1
  {
    if i >= |dict| then Success(false)
    else if !Guarded(dict[i], input) then Success(true)
    else SkipAsWritten(dict, input, i)
  }

  /** The inner loop as written: its counter x never moves while i does, so
      it compares the input's first letter with the first letter of entry
      after entry; the first entry that differs clears `sally` and the outer
      loop resumes past it. Running off the array is undefined behaviour. */
  function SkipAsWritten(dict: seq<string>, input: string, j: nat): Result<bool>
    requires |input| > 0
    decreases |dict| - j, 0
  {
    if j >= |dict| then Failure(UndefinedBehaviour)
    else if input[0] != CharAt(dict[j], 0) then ScanAsWritten(dict, input, j + 1)
    else SkipAsWritten(dict, input, j + 1)
  }

  /** dict_check as written, the inner loop incrementing i instead of x. */
  method DictCheckAsWritten(dict: Dictionary, input: string) returns (r: Result<bool>)
    ensures r == ScanAsWritten(dict, input, 0)
  {
    var i := 0;
    while i < |dict|
      invariant 0 <= i <= |dict|
      invariant ScanAsWritten(dict, input, i) == ScanAsWritten(dict, input, 0)
      decreases |dict| - i
    {
      var sally := true;
      if |dict[i]| > 1 && |input| >= |dict[i]| {
        var x := 0;
        ghost var start := i;
        while x < |input|
          invariant start <= i && x == 0 && |input| > 0
          invariant SkipAsWritten(dict, input, i) == ScanAsWritten(dict, input, 0)
          decreases |dict| - i
        {
          if i >= |dict| {
            return Failure(UndefinedBehaviour);
          }
          if input[x] != CharAt(dict[i], x) {
            sally := false;
            break;
          }
          i := i + 1;
        }
      }
      if sally {
        return Success(true);
      }
      i := i + 1;
    }
    return Success(false);
  }

  /** As written, dict_check never accepts because an entry matched: when
      it accepts, some entry failed the guard. */
  lemma {:induction false} ScanAcceptsOnlyUnguarded(dict: seq<string>, input: string, i: nat)
    requires ScanAsWritten(dict, input, i) == Success(true)
    ensures exists k :: i <= k < |dict| && !Guarded(dict[k], input)
    decreases |dict| - i, 1
  {
    if Guarded(dict[i], input) {
      SkipAcceptsOnlyUnguarded(dict, input, i);
    }
  }

  lemma {:induction false} SkipAcceptsOnlyUnguarded(dict: seq<string>, input: string, j: nat)
    requires |input| > 0 && SkipAsWritten(dict, input, j) == Success(true)
    ensures exists k :: j <= k < |dict| && !Guarded(dict[k], input)
    decreases |dict| - j, 0
  {
    if input[0] != CharAt(dict[j], 0) {
      ScanAcceptsOnlyUnguarded(dict, input, j + 1);
    } else {
      SkipAcceptsOnlyUnguarded(dict, input, j + 1);
    }
  }

  // ---------------------------------------------------------------------
  // dict_check as intended

  /** The entry is a word of at least two letters that the input starts with. */
  predicate Fits(entry: string, input: string)
  {
    Guarded(entry, input) && input[..|entry|] == entry
  }

  /** The input starts with some dictionary word. */
  predicate KnownWord(dict: seq<string>, input: string)
  {
    exists k :: 0 <= k < |dict| && Fits(dict[k], input)
  }

  /** dict_check with the inner loop running x over the entry's letters and
      an entry that fails the guard skipped rather than accepted. */
  method DictCheck(dict: Dictionary, input: string) returns (b: bool)
    ensures b == KnownWord(dict, input)
  {
    for i := 0 to |dict|
      invariant forall k :: 0 <= k < i ==> !Fits(dict[k], input)
    {
      if |dict[i]| > 1 && |input| >= |dict[i]| {
        var sally := true;
        for x := 0 to |dict[i]|
          invariant sally == (input[..x] == dict[i][..x])
        {
          if input[x] != dict[i][x] {
            sally := false;
            break;
          }
          assert input[..x + 1] == input[..x] + [input[x]];
          assert dict[i][..x + 1] == dict[i][..x] + [dict[i][x]];
        }
        if sally {
          assert dict[i][..|dict[i]|] == dict[i];
          return true;
        }
      }
    }
    return false;
  }

  /** A text that starts with a known word stays known whatever follows it. */
  lemma KnownWordExtend(dict: seq<string>, w: string, rest: string)
    requires KnownWord(dict, w)
    ensures KnownWord(dict, w + rest)
  {
    var k :| 0 <= k < |dict| && Fits(dict[k], w);
    assert (w + rest)[..|dict[k]|] == w[..|dict[k]|];
  }

  /** A dictionary whose first entry is "A" and whose other slots are empty. */
  function OneLetterDictionary(): (d: Dictionary)
    ensures d[0] == "A" && forall k :: 1 <= k < |d| ==> d[k] == ""
  {
    seq(DictionarySize, i => if i == 0 then "A" else "")
  }

  /** As written, that dictionary accepts "ZZZ", which starts with no word of
      it: the one-letter entry fails the guard and leaves `sally` true. */
  lemma DictCheckAcceptsZZZ()
    ensures ScanAsWritten(OneLetterDictionary(), "ZZZ", 0) == Success(true)
    ensures !KnownWord(OneLetterDictionary(), "ZZZ")
  {
    var d := OneLetterDictionary();
    assert !Guarded(d[0], "ZZZ");
    forall k | 0 <= k < |d|
      ensures !Fits(d[k], "ZZZ")
    {
      if k > 0 {
        assert d[k] == "";
      }
    }
  }

  // ---------------------------------------------------------------------
  // logic_check

  /** logic_check as written: after a leading 'A' or 'I' the copy handed to
      dict_check is a fresh buffer written from index 1 or 2 on and never
      terminated, so building a string from it reads uninitialised memory. */
  method LogicCheckAsWritten(dict: Dictionary, test: string) returns (r: Result<bool>)
    ensures CharAt(test, 0) == 'A' || CharAt(test, 0) == 'I' ==> r == Failure(UndefinedBehaviour)
    ensures CharAt(test, 0) != 'A' && CharAt(test, 0) != 'I' ==> r == ScanAsWritten(dict, test, 0)
  {
    if CharAt(test, 0) == 'A' || CharAt(test, 0) == 'I' {
      return Failure(UndefinedBehaviour);
    }
    r := DictCheckAsWritten(dict, test);
  }

  /** The text reads as English: it starts with a known word, possibly after
      a leading "AN", "A" or "I". */
  predicate Plausible(dict: seq<string>, test: string)
  {
    (|test| >= 2 && test[..2] == "AN" && KnownWord(dict, test[2..])) ||
    (|test| >= 1 && test[0] == 'A' && KnownWord(dict, test[1..])) ||
    (|test| >= 1 && test[0] == 'I' && KnownWord(dict, test[1..])) ||
    KnownWord(dict, test)
  }

  /** logic_check as intended: the text after "AN", after "A" and after "I"
      handed to the dictionary check, then the text itself. */
  method LogicCheck(dict: Dictionary, test: string) returns (b: bool)
    ensures b == Plausible(dict, test)
  {
    if CharAt(test, 0) == 'A' {
      if CharAt(test, 1) == 'N' {
        b := DictCheck(dict, test[2..]);
        if b {
          return true;
        }
      }
      b := DictCheck(dict, test[1..]);
      if b {
        return true;
      }
    }
    if CharAt(test, 0) == 'I' {
      b := DictCheck(dict, test[1..]);
      if b {
        return true;
      }
    }
    b := DictCheck(dict, test);
  }

  /** A known word passes on its own and after each leading word the check
      allows. */
  lemma PlausibleArticles(dict: seq<string>, w: string)
    requires KnownWord(dict, w)
    ensures Plausible(dict, w)
    ensures Plausible(dict, "A" + w) && Plausible(dict, "AN" + w) && Plausible(dict, "I" + w)
  {
    assert ("A" + w)[1..] == w;
    assert ("I" + w)[1..] == w;
    assert ("AN" + w)[..2] == "AN" && ("AN" + w)[2..] == w;
  }

  // ---------------------------------------------------------------------
  // vinegere_hack

  /** The (key, plaintext) lines the hack prints for the first n candidate
      keys: each key deciphers the text, and the pair is printed when the
      plaintext is plausible; a key that cannot be read ends the hack in
      undefined behaviour. */
  function Reports(dict: Dictionary, c: string, n: nat): Result<seq<(string, string)>>
    requires n <= HackCandidates
  {
    if n == 0 then Success([])
    else
      var prev := Reports(dict, c, n - 1);
      var d := VigenereSpec(c, dict[n - 1], false);
      if prev.Failure? then prev
      else if d.Failure? then Failure(UndefinedBehaviour)
      else if Plausible(dict, d.value) then Success(prev.value + [(dict[n - 1], d.value)])
      else prev
  }

  /** The hack gets through exactly when every candidate key deciphers the
      text. */
  lemma {:induction false} ReportsSucceed(dict: Dictionary, c: string, n: nat)
    requires n <= HackCandidates
    ensures Reports(dict, c, n).Success? <==> forall k :: 0 <= k < n ==> VigenereSpec(c, dict[k], false).Success?
  {
    if n > 0 {
      ReportsSucceed(dict, c, n - 1);
    }
  }

  /** The line printed for candidate k, when its plaintext is plausible. */
  predicate Reported(dict: Dictionary, c: string, k: nat, line: (string, string))
    requires k < |dict|
  {
    var d := VigenereSpec(c, dict[k], false);
    d.Success? && line == (dict[k], d.value) && Plausible(dict, d.value)
  }

  /** Every line printed belongs to a candidate key with a plausible
      plaintext. */
  lemma {:induction false} ReportsSound(dict: Dictionary, c: string, n: nat, line: (string, string))
    requires n <= HackCandidates && Reports(dict, c, n).Success? && line in Reports(dict, c, n).value
    ensures exists k :: 0 <= k < n && Reported(dict, c, k, line)
  {
    var prev := Reports(dict, c, n - 1);
    assert prev.Success?;
    if line in prev.value {
      ReportsSound(dict, c, n - 1, line);
    } else {
      assert Reported(dict, c, n - 1, line);
    }
  }

  /** Every candidate key with a plausible plaintext has its line printed. */
  lemma {:induction false} ReportsComplete(dict: Dictionary, c: string, n: nat, k: nat, line: (string, string))
    requires k < n <= HackCandidates && Reports(dict, c, n).Success? && Reported(dict, c, k, line)
    ensures line in Reports(dict, c, n).value
  {
    var prev := Reports(dict, c, n - 1);
    assert prev.Success?;
    if k < n - 1 {
      ReportsComplete(dict, c, n - 1, k, line);
    }
  }

  /** The hack prints exactly the candidate keys whose plaintext is
      plausible, each with that plaintext, in dictionary order. */
  lemma ReportsExactly(dict: Dictionary, c: string, n: nat)
    requires n <= HackCandidates && Reports(dict, c, n).Success?
    ensures forall line :: line in Reports(dict, c, n).value <==> exists k :: 0 <= k < n && Reported(dict, c, k, line)
  {
    forall line
      ensures line in Reports(dict, c, n).value <==> exists k :: 0 <= k < n && Reported(dict, c, k, line)
    {
      if line in Reports(dict, c, n).value {
        ReportsSound(dict, c, n, line);
      }
      if exists k :: 0 <= k < n && Reported(dict, c, k, line) {
        var k :| 0 <= k < n && Reported(dict, c, k, line);
        ReportsComplete(dict, c, n, k, line);
      }
    }
  }

  /** One more candidate key. */
  lemma ReportsNext(dict: Dictionary, c: string, n: nat, lines: seq<(string, string)>)
    requires n < HackCandidates && Reports(dict, c, n) == Success(lines)
    ensures var d := VigenereSpec(c, dict[n], false);
      Reports(dict, c, n + 1) ==
        if d.Failure? then Failure(UndefinedBehaviour)
        else if Plausible(dict, d.value) then Success(lines + [(dict[n], d.value)])
        else Success(lines)
  {
  }

  /** Once a key cannot be read, the hack stays failed. */
  lemma {:induction false} ReportsFail(dict: Dictionary, c: string, m: nat, n: nat)
    requires m <= n <= HackCandidates && Reports(dict, c, m).Failure?
    ensures Reports(dict, c, n) == Reports(dict, c, m)
    decreases n - m
  {
    if m < n {
      assert Reports(dict, c, m + 1) == Reports(dict, c, m);
      ReportsFail(dict, c, m + 1, n);
    }
  }

  /** vinegere_hack as written: the first candidate key is handed to
      vinegere_decypher, whose loop reads past the text, so the hack ends in
      undefined behaviour before any line is printed. */
  method VinegereHackAsWritten(dict: Dictionary, input: string) returns (r: Result<seq<(string, string)>>)
    ensures r == Failure(UndefinedBehaviour)
  {
    var ciphertext := ToUpper(input);
    ciphertext := RemoveSpace(ciphertext);
    for check := 0 to HackCandidates
      invariant check == 0
    {
      var testKey := dict[check];
      var text := RemoveSpace(ciphertext);
      text := ToUpper(text);
      var resltant := VigenereLoopAsWritten(text, testKey, false);
      if resltant.Failure? {
        return Failure(resltant.error);
      }
      assert false;
    }
    assert false;
    return Success([]);
  }

  /** vinegere_hack for one cipher text read from the console: upper-cased,
      blanks removed, then each of the first HackCandidates dictionary
      entries tried as the key with the bounded decipherment and the
      intended logic check. */
  method VinegereHack(dict: Dictionary, input: string) returns (r: Result<seq<(string, string)>>)
    ensures r == Reports(dict, RemoveSpaces(Upper(input)), HackCandidates)
  {
    var ciphertext := ToUpper(input);
    ciphertext := RemoveSpace(ciphertext);
    var lines: seq<(string, string)> := [];
    for check := 0 to HackCandidates
      invariant Reports(dict, ciphertext, check) == Success(lines)
    {
      var testKey := dict[check];
      var resltant := VinegereDecypher(ciphertext, testKey);
      ReportsNext(dict, ciphertext, check, lines);
      if resltant.Failure? {
        ReportsFail(dict, ciphertext, check + 1, HackCandidates);
        return Failure(UndefinedBehaviour);
      }
      var ok := LogicCheck(dict, resltant.value);
      if ok {
        lines := lines + [(testKey, resltant.value)];
      }
    }
    return Success(lines);
  }
}
