/** The original C++ console tool: letter values, upper-casing and blank
    removal over std::string, the Vigenère cipher with its +1 / -1 offset, the
    Caesar brute force, Playfair over the shared key square, and the
    dictionary-driven Vigenère hack. Undefined behaviour (a read past a table,
    an uninitialised cell, an unterminated buffer) is the failure
    UndefinedBehaviour. */
module CppTool {
  import opened Wrappers
  import opened Text
  import opened Arith
  import opened KeySquare

  /** The size of the global dictionary array. */
  const DictionarySize: nat := 466457

  /** How many dictionary entries the Vigenère hack tries as keys. */
  const HackCandidates: nat := 10000

  /** s[i] on a std::string: position |s| holds the terminating NUL. */
  function CharAt(s: string, i: nat): char
    requires i <= |s|
  {
    if i < |s| then s[i] else '\0'
  }

  /** letter_value: scan letters[] for the letter. A letter outside A..Z runs
      the scan off the end of the 26-entry table (None). */
  method LetterValue(letter: char) returns (r: Option<nat>)
    ensures IsCapital(letter) ==> r == Some(CapitalIndex(letter))
    ensures !IsCapital(letter) ==> r == None
  {
    CapitalsDistinct();
    var val := 0;
    while val < 26 && letter != Capitals[val]
      invariant 0 <= val <= 26
      invariant forall j :: 0 <= j < val ==> Capitals[j] != letter
    {
      val := val + 1;
    }
    if val == 26 {
      return None;
    }
    return Some(val);
  }

  /** upper: toupper on every character, the length kept. */
  method ToUpper(val: string) returns (output: string)
    ensures output == Upper(val)
  {
    output := val;
    for i := 0 to |val|
      invariant |output| == |val|
      invariant forall j :: 0 <= j < i ==> output[j] == UpperChar(val[j])
      invariant output[i..] == val[i..]
    {
      output := output[i := UpperChar(val[i])];
    }
  }

  /** Deleting one blank does not change the text without blanks. */
  lemma DropBlank(s: string, i: int)
    requires 0 <= i < |s| && s[i] == ' '
    ensures RemoveSpaces(s[..i] + s[i + 1..]) == RemoveSpaces(s)
  {
    assert s == s[..i] + [' '] + s[i + 1..];
    WithoutAppend(s[..i] + [' '], s[i + 1..], ' ');
    WithoutAppend(s[..i], [' '], ' ');
    WithoutAppend(s[..i], s[i + 1..], ' ');
  }

  /** remove_space: the first pass shifts the tail left over each blank it
      meets and shortens the string, skipping the character shifted into the
      blank's place; the second pass recurses while a blank is left. */
  method RemoveSpace(input: string) returns (result: string)
    ensures result == RemoveSpaces(input)
    decreases |input|
  {
    result := input;
    var length := |input|;
    ghost var removed := false;
    var i := 0;
    while i <= |result|
      invariant 0 <= i && length == |result| <= |input|
      invariant RemoveSpaces(result) == RemoveSpaces(input)
      invariant !removed ==> result == input && forall k :: 0 <= k < i && k < |result| ==> result[k] != ' '
      invariant removed ==> |result| < |input|
      decreases |result| + 1 - i
    {
      if CharAt(result, i) == ' ' {
        ghost var before := result;
        result := ShiftDown(result, i);
        length := length - 1;
        DropBlank(before, i);
        removed := true;
      } else {
        assert result[..length] == result;
      }
      result := result[..length];
      i := i + 1;
    }
    var j := 0;
    while j <= |result|
      invariant 0 <= j
      invariant RemoveSpaces(result) == RemoveSpaces(input)
      invariant ' ' in result ==> |result| < |input|
      invariant forall k :: 0 <= k < j && k < |result| ==> result[k] != ' '
      decreases |result| + 1 - j
    {
      if CharAt(result, j) == ' ' {
        result := RemoveSpace(result);
      }
      j := j + 1;
    }
  }

  /** The inner loop of remove_space: every character from i on takes the
      value of the one after it, the terminating NUL included. */
  method ShiftDown(s: string, i: nat) returns (r: string)
    requires i < |s|
    ensures |r| == |s| && r[..|s| - 1] == s[..i] + s[i + 1..]
  {
    r := s;
    var rep := i;
    while rep < |r|
      invariant i <= rep <= |r| == |s|
      invariant r[..i] == s[..i] && r[rep..] == s[rep..]
      invariant forall k :: i <= k < rep ==> r[k] == CharAt(s, k + 1)
    {
      r := r[rep := CharAt(r, rep + 1)];
      rep := rep + 1;
    }
    assert r[..|s| - 1] == s[..i] + s[i + 1..];
  }

  // ---------------------------------------------------------------------
  // Vigenère

  /** ciph = key + plain + 1, less 26 above 25: the shifted index mod 26. */
  function EncShift(v: int, k: int): (r: int)
    requires 0 <= v < 26 && 0 <= k < 26
    ensures 0 <= r < 26 && r == (v + k + 1) % 26
  {
    var ciph := k + v + 1;
    if ciph > 25 then ModUnique(ciph, 26, 1, ciph - 26); ciph - 26
    else ModUnique(ciph, 26, 0, ciph); ciph
  }

  /** deciph = cipher - key - 1, plus 26 below 0: the unshifted index mod 26. */
  function DecShift(v: int, k: int): (r: int)
    requires 0 <= v < 26 && 0 <= k < 26
    ensures 0 <= r < 26 && r == (v - k - 1) % 26
  {
    var deciph := v - k - 1;
    if deciph < 0 then ModUnique(deciph, 26, -1, deciph + 26); deciph + 26
    else ModUnique(deciph, 26, 0, deciph); deciph
  }

  lemma ShiftInverse(v: int, k: int)
    requires 0 <= v < 26 && 0 <= k < 26
    ensures DecShift(EncShift(v, k), k) == v && EncShift(DecShift(v, k), k) == v
  {
  }

  /** Position i reads capitals: the text's letter and key letter i mod |key|. */
  predicate OkAt(p: string, key: string, i: int)
    requires 0 <= i < |p| && |key| > 0
  {
    IsCapital(p[i]) && IsCapital(key[i % |key|])
  }

  /** Every letter read is a capital. An empty key only suits an empty text. */
  predicate Usable(p: string, key: string)
  {
    |p| == 0 || (|key| > 0 && forall i :: 0 <= i < |p| ==> OkAt(p, key, i))
  }

  /** Letter i of the text shifted by key letter i mod |key|, forward or back. */
  function ShiftAt(p: string, key: string, i: int, encrypt: bool): (c: char)
    requires 0 <= i < |p| && |key| > 0 && OkAt(p, key, i)
    ensures IsCapital(c)
  {
    var v, k := CapitalIndex(p[i]), CapitalIndex(key[i % |key|]);
    Letter(if encrypt then EncShift(v, k) else DecShift(v, k))
  }

  /** The whole text shifted letter by letter. */
  function VigenereText(p: string, key: string, encrypt: bool): (r: string)
    requires Usable(p, key)
    ensures |r| == |p| && forall i :: 0 <= i < |r| ==> IsCapital(r[i])
  {
    seq(|p|, i requires 0 <= i < |p| => ShiftAt(p, key, i, encrypt))
  }

  /** vinegere_cypher / vinegere_decypher: blanks removed, upper-cased, then
      shifted, or undefined behaviour when a letter read is not a capital. */
  function VigenereSpec(input: string, key: string, encrypt: bool): Result<string>
  {
    var p := Upper(RemoveSpaces(input));
    if Usable(p, key) then Success(VigenereText(p, key, encrypt)) else Failure(UndefinedBehaviour)
  }

  /** A text of capitals is left alone by the normalisation. */
  lemma NormalCapitals(c: string)
    requires forall i :: 0 <= i < |c| ==> IsCapital(c[i])
    ensures Upper(RemoveSpaces(c)) == c
  {
    assert ' ' !in c;
  }

  /** Deciphering with the same key what was enciphered gives back the
      normalised plaintext, and the other way round. */
  lemma VigenereRoundTrip(input: string, key: string, encrypt: bool)
    requires VigenereSpec(input, key, encrypt).Success?
    ensures var c := VigenereSpec(input, key, encrypt).value;
      VigenereSpec(c, key, !encrypt) == Success(Upper(RemoveSpaces(input)))
  {
    var p := Upper(RemoveSpaces(input));
    var c := VigenereText(p, key, encrypt);
    NormalCapitals(c);
    if |p| > 0 {
      assert forall i :: 0 <= i < |c| ==> OkAt(c, key, i) by {
        forall i | 0 <= i < |c| ensures OkAt(c, key, i) {
          assert OkAt(p, key, i);
        }
      }
      var d := VigenereText(c, key, !encrypt);
      forall i | 0 <= i < |p|
        ensures d[i] == p[i]
      {
        assert OkAt(p, key, i);
        ShiftInverse(CapitalIndex(p[i]), CapitalIndex(key[i % |key|]));
      }
      assert d == p;
    }
  }

  /** The key indexer before round i: 0 at the start, otherwise one past the
      key letter used in round i - 1. */
  predicate KeyIndexer(key: string, i: nat, keyIndexer: int)
  {
    if i == 0 then keyIndexer == 0
    else |key| > 0 && 1 <= keyIndexer <= |key| && keyIndexer - 1 == (i - 1) % |key|
  }

  /** After the reset to 0 at the end of the key, the indexer of round i
      points at key letter i mod |key|. */
  lemma KeyIndexerReset(key: string, i: nat, keyIndexer: int)
    requires KeyIndexer(key, i, keyIndexer) && keyIndexer <= |key|
    ensures var ki := if keyIndexer == |key| then 0 else keyIndexer;
      |key| > 0 ==> ki == i % |key|
  {
    if i > 0 {
      ModNext(i - 1, |key|);
    }
  }

  /** The first i rounds of the letter loop read capitals and wrote the
      shifted letters; the rest of the text is untouched. */
  predicate Shifted(text: string, key: string, encrypt: bool, out: string, i: int)
  {
    0 <= i <= |text| && |out| == |text| && out[i..] == text[i..] &&
    (i > 0 ==> |key| > 0) &&
    forall j :: 0 <= j < i ==> OkAt(text, key, j) && out[j] == ShiftAt(text, key, j, encrypt)
  }

  /** The key schedule and letter loop shared by vinegere_cypher and
      vinegere_decypher, with the loop bound i < size. */
  method VigenereLoop(text: string, key: string, encrypt: bool) returns (r: Result<string>)
    ensures Usable(text, key) ==> r == Success(VigenereText(text, key, encrypt))
    ensures !Usable(text, key) ==> r == Failure(UndefinedBehaviour)
  {
    var keyIndexer := 0;
    var out := text;
    var i := 0;
    while i < |out|
      invariant KeyIndexer(key, i, keyIndexer) && Shifted(text, key, encrypt, out, i)
    {
      KeyIndexerReset(key, i, keyIndexer);
      if keyIndexer == |key| {
        keyIndexer := 0;
      }
      var kv := LetterValue(CharAt(key, keyIndexer));
      var tv := LetterValue(text[i]);
      if kv.None? || tv.None? {
        assert |key| > 0 ==> !OkAt(text, key, i);
        return Failure(UndefinedBehaviour);
      }
      var value := if encrypt then EncShift(tv.value, kv.value) else DecShift(tv.value, kv.value);
      assert OkAt(text, key, i);
      out := out[i := Letter(value)];
      keyIndexer := keyIndexer + 1;
      i := i + 1;
    }
    if |text| > 0 {
      assert Usable(text, key);
      assert out == VigenereText(text, key, encrypt);
    }
    return Success(out);
  }

  /** The same loop as written, with the bound i <= size: the last round reads
      the terminating NUL and hands it to letter_value, so every call ends in
      undefined behaviour. */
  method VigenereLoopAsWritten(text: string, key: string, encrypt: bool) returns (r: Result<string>)
    ensures r == Failure(UndefinedBehaviour)
  {
    var keyIndexer := 0;
    var out := text;
    var i := 0;
    while i <= |out|
      invariant 0 <= i <= |text| + 1 && |out| == |text|
      invariant 0 <= keyIndexer <= |key|
    {
      if keyIndexer == |key| {
        keyIndexer := 0;
      }
      var kv := LetterValue(CharAt(key, keyIndexer));
      var tv := LetterValue(CharAt(text, i));
      if kv.None? || tv.None? {
        return Failure(UndefinedBehaviour);
      }
      var value: int;
      if encrypt {
        value := (kv.value + tv.value + 1) % 26;
      } else {
        value := (tv.value - kv.value - 1) % 26;
      }
      out := out[i := Capitals[value]];
      keyIndexer := keyIndexer + 1;
      i := i + 1;
    }
    return Failure(UndefinedBehaviour);
  }

  /** Where the as-written loop always fails, the bounded one enciphers
      "HELLO" with "KEY" to "SJKWT" (H = 7, K = 10: 7 + 10 + 1 = 18 = S). */
  lemma VigenereHelloKey()
    ensures VigenereSpec("HELLO", "KEY", true) == Success("SJKWT")
  {
    NormalCapitals("HELLO");
    HelloText();
  }

  lemma HelloUsable()
    ensures Usable("HELLO", "KEY")
  {
    assert forall i :: 0 <= i < 5 ==> OkAt("HELLO", "KEY", i);
  }

  lemma HelloText()
    ensures Usable("HELLO", "KEY") && VigenereText("HELLO", "KEY", true) == "SJKWT"
  {
    HelloUsable();
    var c := VigenereText("HELLO", "KEY", true);
    assert c[0] == 'S' by { assert c[0] == Letter(18); }
    assert c[1] == 'J' by { assert c[1] == Letter(9); }
    assert c[2] == 'K' by { assert c[2] == Letter(10); }
    assert c[3] == 'W' by { assert c[3] == Letter(22); }
    assert c[4] == 'T' by { assert c[4] == Letter(19); }
    assert c == "SJKWT";
  }

  /** vinegere_cypher with the loop bound corrected. */
  method VinegereCypher(input: string, key: string) returns (r: Result<string>)
    ensures r == VigenereSpec(input, key, true)
  {
    var plaintext := RemoveSpace(input);
    plaintext := ToUpper(plaintext);
    r := VigenereLoop(plaintext, key, true);
  }

  /** vinegere_decypher with the loop bound corrected. */
  method VinegereDecypher(input: string, key: string) returns (r: Result<string>)
    ensures r == VigenereSpec(input, key, false)
  {
    var ciphertext := RemoveSpace(input);
    ciphertext := ToUpper(ciphertext);
    r := VigenereLoop(ciphertext, key, false);
  }

  // ---------------------------------------------------------------------
  // Caesar brute force

  /** The text up to its first NUL, as the length scan sees it. */
  function CString(s: string): (r: string)
    ensures '\0' !in r && |r| <= |s| && r == s[..|r|]
    ensures |r| < |s| ==> s[|r|] == '\0'
  {
    var k := IndexOf(s, '\0');
    if k < 0 then s else s[..k]
  }

  predicate CaesarText(t: string)
  {
    forall i :: 0 <= i < |t| ==> IsCapital(t[i]) || t[i] == ' '
  }

  /** A capital moved back shift places (mod 26); a blank stays. */
  function ShiftedChar(c: char, shift: int): (r: char)
    requires IsCapital(c) || c == ' '
    ensures (IsCapital(r) || r == ' ') && (r == ' ' <==> c == ' ')
  {
    if c == ' ' then ' ' else Letter((CapitalIndex(c) - shift) % 26)
  }

  /** Every letter moved back shift places (mod 26); blanks stay. */
  function CaesarShift(t: string, shift: int): (r: string)
    requires CaesarText(t)
    ensures |r| == |t| && CaesarText(r)
    ensures forall i :: 0 <= i < |t| ==> (r[i] == ' ' <==> t[i] == ' ')
  {
    seq(|t|, i requires 0 <= i < |t| => ShiftedChar(t[i], shift))
  }

  /** Shifting back by 26 - s undoes a shift by s. */
  lemma CaesarShiftInverse(t: string, s: int)
    requires CaesarText(t)
    ensures CaesarShift(CaesarShift(t, s), 26 - s) == t
  {
    var c := CaesarShift(t, s);
    var d := CaesarShift(c, 26 - s);
    forall i | 0 <= i < |t| && t[i] != ' '
      ensures d[i] == t[i]
    {
      var v := CapitalIndex(t[i]);
      var w := (v - s) % 26;
      DivMod(v - s, 26);
      assert CapitalIndex(c[i]) == w;
      ModUnique(w - (26 - s), 26, -((v - s) / 26) - 1, v);
    }
  }

  /** Adding 26 to a negative difference of two letter values is taking it mod 26. */
  lemma ShiftBack(v: int, key: int)
    requires 0 <= v < 26 && 0 <= key < 26
    ensures (v - key) % 26 == if v - key < 0 then v - key + 26 else v - key
  {
    if v - key < 0 {
      ModUnique(v - key, 26, -1, v - key + 26);
    } else {
      ModUnique(v - key, 26, 0, v - key);
    }
  }

  /** One character of ceaser_hack's inner loop: a capital moved back key
      places, a blank kept, anything else sending the letter scan off the
      table. */
  method CaesarFigure(c: char, key: int) returns (fig: Option<char>)
    requires 0 <= key < 26
    ensures fig.Some? <==> IsCapital(c) || c == ' '
    ensures fig.Some? ==> fig.value == ShiftedChar(c, key)
  {
    if c == ' ' {
      return Some(' ');
    }
    var val := LetterValue(c);
    if val.None? {
      return None;
    }
    var v := val.value - key;
    if v < 0 {
      v := v + 26;
    }
    ShiftBack(val.value, key);
    return Some(Letter(v));
  }

  /** The inner loop of ceaser_hack for one key: each capital moved back key
      places, a blank kept, anything else sending the letter scan off the
      table. */
  method CaesarCandidate(t: string, key: int) returns (r: Result<string>)
    requires 0 <= key < 26
    ensures CaesarText(t) ==> r == Success(CaesarShift(t, key))
    ensures !CaesarText(t) ==> r == Failure(UndefinedBehaviour)
  {
    var posval := "";
    for i := 0 to |t|
      invariant |posval| == i
      invariant forall j :: 0 <= j < i ==> IsCapital(t[j]) || t[j] == ' '
      invariant forall j :: 0 <= j < i ==> posval[j] == ShiftedChar(t[j], key)
    {
      var fig := CaesarFigure(t[i], key);
      if fig.None? {
        return Failure(UndefinedBehaviour);
      }
      posval := posval + [fig.value];
    }
    assert posval == CaesarShift(t, key);
    return Success(posval);
  }

  /** ceaser_hack: the length scan up to the first NUL, then for each key
      0..25 the candidate text, or undefined behaviour when a character other
      than a capital or a blank sends the letter scan off the table. */
  method CeaserHack(ciphtext: string) returns (r: Result<seq<string>>)
    ensures CaesarText(CString(ciphtext)) ==> (r.Success? && |r.value| == 26 &&
      forall key :: 0 <= key < 26 ==> r.value[key] == CaesarShift(CString(ciphtext), key))
    ensures !CaesarText(CString(ciphtext)) ==> r == Failure(UndefinedBehaviour)
  {
    var len := 0;
    while CharAt(ciphtext, len) != '\0'
      invariant 0 <= len <= |ciphtext| && '\0' !in ciphtext[..len]
      decreases |ciphtext| - len
    {
      assert ciphtext[..len + 1] == ciphtext[..len] + [ciphtext[len]];
      len := len + 1;
    }
    ghost var t := CString(ciphtext);
    assert t == ciphtext[..len] by {
      if len < |ciphtext| {
        assert IndexOf(ciphtext, '\0') == len;
      }
    }
    var lines: seq<string> := [];
    for key := 0 to 26
      invariant |lines| == key
      invariant key > 0 ==> CaesarText(t)
      invariant forall k :: 0 <= k < key ==> lines[k] == CaesarShift(t, k)
    {
      var posval := CaesarCandidate(ciphtext[..len], key);
      if posval.Failure? {
        return Failure(UndefinedBehaviour);
      }
      lines := lines + [posval.value];
    }
    return Success(lines);
  }

  // ---------------------------------------------------------------------
  // Playfair

  /** The key after the marking loop: a repeat of an earlier character
      becomes a blank. */
  function Marked(s: string): (r: string)
    ensures |r| == |s|
  {
    if s == [] then []
    else
      var t, x := s[..|s| - 1], s[|s| - 1];
      Marked(t) + [if x in t then ' ' else x]
  }

  /** A character other than a blank occurs in the marked key exactly when it
      occurs in the key. */
  lemma {:induction false} MarkedMember(s: string, c: char)
    requires c != ' '
    ensures c in Marked(s) <==> c in s
    decreases |s|
  {
    if s != [] {
      var t := s[..|s| - 1];
      MarkedMember(t, c);
      assert s == t + [s[|s| - 1]];
    }
  }

  /** Marking repeats with blanks and then removing the blanks keeps the
      first occurrence of each character. */
  lemma {:induction false} MarkedDedup(s: string)
    ensures Without(Marked(s), ' ') == Without(Dedup(s), ' ')
    decreases |s|
  {
    if s != [] {
      var t, x := s[..|s| - 1], s[|s| - 1];
      MarkedDedup(t);
      WithoutAppend(Marked(t), [if x in t then ' ' else x], ' ');
      if x !in Dedup(t) {
        WithoutAppend(Dedup(t), [x], ' ');
      }
    }
  }

  /** The inner search loop of the key and alphabet shortening: does c occur
      among the first n characters of s? */
  method Occurs(s: string, c: char, n: int) returns (present: bool)
    requires 0 <= n <= |s|
    ensures present <==> c in s[..n]
  {
    present := false;
    for check := 0 to n
      invariant present <==> c in s[..check]
    {
      assert s[..check + 1] == s[..check] + [s[check]];
      if c == s[check] {
        present := true;
      }
    }
  }

  /** The shortened key: the upper-cased key's characters, each at its
      first occurrence, without blanks. */
  function ShortKey(key: string): (r: string)
    ensures Distinct(r) && ' ' !in r
    ensures forall c :: c in r <==> c in Upper(key) && c != ' '
  {
    WithoutDistinct(Dedup(Upper(key)), ' ');
    Without(Dedup(Upper(key)), ' ')
  }

  /** The marking loop: every character equal to an earlier one becomes a
      blank. */
  method MarkRepeats(s: string) returns (skey: string)
    ensures skey == Marked(s)
  {
    skey := s;
    for i := 0 to |s|
      invariant |skey| == |s|
      invariant skey == Marked(s[..i]) + s[i..]
    {
      skey := MarkAt(s, i, skey);
    }
    assert s[..|s|] == s;
  }

  /** One pass of the marking loop: character i becomes a blank when it
      occurs before i. */
  method MarkAt(s: string, i: nat, skey: string) returns (next: string)
    requires i < |s| && skey == Marked(s[..i]) + s[i..]
    ensures next == Marked(s[..i + 1]) + s[i + 1..]
  {
    ghost var m, t := Marked(s[..i]), s[i..];
    assert t[0] == s[i] && t[1..] == s[i + 1..];
    var present := Occurs(skey, skey[i], i);
    if s[i] != ' ' {
      MarkedMember(s[..i], s[i]);
    }
    var mark := if present then ' ' else s[i];
    Splice(m, t, mark);
    MarkedSnoc(s, i);
    next := skey[i := mark];
  }

  /** Overwriting the first item after a prefix. */
  lemma Splice<T>(m: seq<T>, t: seq<T>, y: T)
    requires |t| > 0
    ensures (m + t)[..|m|] == m && (m + t)[|m|] == t[0]
    ensures (m + t)[|m| := y] == m + [y] + t[1..]
  {
  }

  /** Marking one more character of the key. */
  lemma MarkedSnoc(s: string, i: nat)
    requires i < |s|
    ensures Marked(s[..i + 1]) == Marked(s[..i]) + [if s[i] in s[..i] then ' ' else s[i]]
  {
    assert s[..i + 1][..i] == s[..i];
  }

  /** The first loop of playfair_cypher / playfair_decypher, over the
      upper-cased key, then the blanks removed. */
  method ShortenKey(key: string) returns (skey: string)
    ensures skey == ShortKey(key)
  {
    skey := ToUpper(key);
    MarkedDedup(skey);
    skey := MarkRepeats(skey);
    skey := RemoveSpace(skey);
  }

  /** The alphabet after the blank-out loop: each character of drop becomes a
      blank. */
  function BlankOut(s: string, drop: string): (r: string)
    ensures |r| == |s|
  {
    if s == [] then []
    else
      var t, x := s[..|s| - 1], s[|s| - 1];
      BlankOut(t, drop) + [if x in drop then ' ' else x]
  }

  lemma {:induction false} BlankOutWithout(s: string, drop: string)
    requires ' ' !in s
    ensures Without(BlankOut(s, drop), ' ') == Except(s, drop)
    decreases |s|
  {
    if s != [] {
      var t, x := s[..|s| - 1], s[|s| - 1];
      BlankOutWithout(t, drop);
      WithoutAppend(BlankOut(t, drop), [if x in drop then ' ' else x], ' ');
    }
  }

  /** The blank-out loop: every character of s that occurs in skey or is the
      omitted letter becomes a blank. */
  method BlankOutLetters(s: string, skey: string, omit: char) returns (salpha: string)
    ensures salpha == BlankOut(s, skey + [omit])
  {
    ghost var d := skey + [omit];
    salpha := s;
    for i := 0 to |salpha|
      invariant |salpha| == |s|
      invariant salpha == BlankOut(s[..i], d) + s[i..]
    {
      BlankOutStep(s, i, d);
      var present := Occurs(skey, salpha[i], |skey|);
      assert skey[..|skey|] == skey;
      if present || salpha[i] == omit {
        salpha := salpha[i := ' '];
      }
    }
    assert s[..|s|] == s;
  }

  /** One more character through the blank-out loop. */
  lemma BlankOutStep(s: string, i: nat, d: string)
    requires i < |s|
    ensures var b := BlankOut(s[..i], d) + s[i..];
      b[i] == s[i] &&
      BlankOut(s[..i + 1], d) + s[i + 1..] == if s[i] in d then b[i := ' '] else b
  {
    assert s[..i + 1][..i] == s[..i];
    var b := BlankOut(s[..i], d) + s[i..];
    if s[i] in d {
      assert BlankOut(s[..i + 1], d) + s[i + 1..] == b[i := ' '];
    } else {
      assert BlankOut(s[..i + 1], d) + s[i + 1..] == b;
    }
  }

  /** The second loop of playfair_cypher / playfair_decypher over SAlpha,
      then the blanks removed. */
  method ShortenAlphabet(skey: string, omit: char) returns (salpha: string)
    ensures salpha == Except(SAlpha, skey + [omit])
  {
    salpha := BlankOutLetters(SAlpha, skey, omit);
    BlankOutWithout(SAlpha, skey + [omit]);
    salpha := RemoveSpace(salpha);
  }

  lemma UpperIdempotent(c: char)
    ensures UpperChar(UpperChar(c)) == UpperChar(c)
  {
  }

  /** The 25 letters of the key grid: at least 25 are always available,
      none repeats, none is a blank and none changes under upper-casing. */
  function SquareOf(key: string, omit: char): (g: string)
    ensures |g| == 25 && Distinct(g)
    ensures forall c :: c in g ==> c != ' ' && UpperChar(c) == c
  {
    SquareFacts(ShortKey(key), omit);
    SAlphaLetters();
    var sq := Square(ShortKey(key), omit);
    assert forall c :: c in sq ==> c != ' ' && UpperChar(c) == c by {
      forall c | c in sq
        ensures c != ' ' && UpperChar(c) == c
      {
        if c in ShortKey(key) {
          var j :| 0 <= j < |key| && Upper(key)[j] == c;
          UpperIdempotent(key[j]);
        }
      }
    }
    assert forall c :: c in sq[..25] ==> c in sq;
    assert Distinct(sq[..25]) by {
      forall i, j | 0 <= i < j < 25
        ensures sq[..25][i] != sq[..25][j]
      {
        assert sq[i] != sq[j];
      }
    }
    sq[..25]
  }

  /** A key of letters and blanks without the omitted capital fills the grid
      with every capital but the omitted one. */
  lemma SquareOfCovers(key: string, omit: char)
    requires IsCapital(omit) && omit !in Upper(key)
    requires forall c :: c in key ==> c == ' ' || IsCapital(UpperChar(c))
    ensures forall c :: c in SquareOf(key, omit) <==> IsCapital(c) && c != omit
  {
    var skey := ShortKey(key);
    assert forall c :: c in skey ==> IsCapital(c) by {
      forall c | c in skey
        ensures IsCapital(c)
      {
        var j :| 0 <= j < |key| && Upper(key)[j] == c;
      }
    }
    SquareCovers(skey, omit);
    assert Square(skey, omit)[..25] == Square(skey, omit);
  }

  /** The plaintext as playfair_cypher prepares it: upper-cased, blanks
      removed, and a 'Z' added when the length is odd. */
  function Prepared(input: string): (r: string)
    ensures var p := RemoveSpaces(Upper(input));
      |r| % 2 == 0 && (r == p || r == p + "Z")
  {
    var p := RemoveSpaces(Upper(input));
    if |p| % 2 != 0 then p + "Z" else p
  }

  /** Build the key grid: shorten the key, shorten the alphabet, append, fill. */
  method BuildGrid(key: string, omit: char) returns (grid: array2<char>)
    ensures fresh(grid) && grid.Length0 == 5 && grid.Length1 == 5
    ensures Contents(grid) == SquareOf(key, omit)
  {
    var skey := ShortenKey(key);
    var salpha := ShortenAlphabet(skey, omit);
    skey := skey + salpha;
    SquareFacts(ShortKey(key), omit);
    grid := FillGrid(skey);
  }

  method PrepareText(input: string) returns (text: string)
    ensures text == Prepared(input)
  {
    text := ToUpper(input);
    text := RemoveSpace(text);
    if |text| % 2 != 0 {
      text := text + ['Z'];
    }
  }

  /** playfair_cypher / playfair_decypher as a whole: the text prepared and
      taken through the grid of the key and omitted letter. */
  function PlayfairSpec(input: string, key: string, omit: char, forward: bool): Result<string>
  {
    Crypt(SquareOf(key, omit), Prepared(input), forward, None)
  }

  /** playfair_cypher: the grid leaves out 'Q'. */
  method PlayfairCypher(input: string, key: string) returns (r: Result<string>)
    ensures r == PlayfairSpec(input, key, 'Q', true)
  {
    var grid := BuildGrid(key, 'Q');
    var plaintext := PrepareText(input);
    r := CryptGrid(grid, plaintext, true, None);
  }

  /** playfair_decypher: the grid leaves out the given letter. */
  method PlayfairDecypher(input: string, key: string, omit: char) returns (r: Result<string>)
    ensures r == PlayfairSpec(input, key, omit, false)
  {
    var grid := BuildGrid(key, omit);
    var ciphertext := PrepareText(input);
    r := CryptGrid(grid, ciphertext, false, None);
  }

  /** A text of grid letters of even length is its own preparation. */
  lemma PreparedGridText(g: string, c: string)
    requires forall x :: x in g ==> x != ' ' && UpperChar(x) == x
    requires forall x :: x in c ==> x in g
    requires |c| % 2 == 0
    ensures Prepared(c) == c
  {
    assert Upper(c) == c;
    assert ' ' !in c;
  }

  /** Whatever goes through the grid comes back through it with the same key
      and omitted letter, in either order; and its length is the padded
      length. */
  lemma PlayfairRoundTrip(input: string, key: string, omit: char, forward: bool)
    requires PlayfairSpec(input, key, omit, forward).Success?
    ensures |PlayfairSpec(input, key, omit, forward).value| == |Prepared(input)|
    ensures PlayfairSpec(PlayfairSpec(input, key, omit, forward).value, key, omit, !forward)
      == Success(Prepared(input))
  {
    var g, t := SquareOf(key, omit), Prepared(input);
    CryptSucceedsInGrid(g, t, forward);
    CryptRoundTrip(g, t, None, forward);
    var c := Crypt(g, t, forward, None).value;
    PreparedGridText(g, c);
  }
}
