/** The C# port of the classical ciphers (Thismaker.Enigma.Classical):
    Vigenère and Caesar over letter values, where a character outside A..Z
    counts as 0; Playfair over the shared key square, where a letter outside
    the grid takes the cell (0, 0); and the dictionary attack on Playfair.
    A .NET exception is a Failure carrying its kind. */
module Classical {
  import opened Wrappers
  import opened Text
  import opened Arith
  import opened KeySquare
  import CppTool

  /** string.Prepare(): upper-cased, blanks removed. The extension itself is
      not part of this model; this is the normalisation the C++ tool applies
      to the same texts. */
  function Prepare(s: string): string
  {
    RemoveSpaces(Upper(s))
  }

  /** A prepared text is left alone by upper-casing and by preparing again. */
  lemma PreparedFixed(s: string)
    ensures Upper(Prepare(s)) == Prepare(s) && Prepare(Prepare(s)) == Prepare(s)
  {
    var p := Prepare(s);
    forall i | 0 <= i < |p|
      ensures UpperChar(p[i]) == p[i]
    {
      assert p[i] in Upper(s);
      var j :| 0 <= j < |s| && Upper(s)[j] == p[i];
    }
    assert Upper(p) == p;
  }

  /** A text of capitals is its own preparation. */
  lemma CapitalsPrepared(c: string)
    requires forall i :: 0 <= i < |c| ==> IsCapital(c[i])
    ensures Prepare(c) == c
  {
    assert Upper(c) == c;
    assert ' ' !in c;
  }

  // ---------------------------------------------------------------------
  // Letter values

  /** The value GetLetterValue gives a character. */
  function Value(c: char): (r: nat)
    ensures r < 26
  {
    if IsCapital(c) then CapitalIndex(c) else 0
  }

  /** GetLetterValue: scan capital_letters for the letter; the scan running
      off the table throws, is caught, and gives 0. */
  method GetLetterValue(letter: char) returns (val: nat)
    ensures IsCapital(letter) ==> val < 26 && Capitals[val] == letter
    ensures !IsCapital(letter) ==> val == 0
    ensures val == Value(letter)
  {
    CapitalsDistinct();
    val := 0;
    while val < 26 && letter != Capitals[val]
      invariant 0 <= val <= 26
      invariant forall j :: 0 <= j < val ==> Capitals[j] != letter
    {
      val := val + 1;
    }
    if val == 26 {
      assert IsCapital(letter) ==> Capitals[CapitalIndex(letter)] == letter;
      val := 0;
    }
  }

  /** The value after the adjustment loop: the sum less 26 while above 25,
      or the difference plus 26 while below 0. */
  function Shifted(v: nat, k: nat, encrypt: bool): (r: nat)
    requires v < 26 && k < 26
    ensures r < 26
  {
    if encrypt then (v + k) % 26 else (v - k) % 26
  }

  /** Shifting back by the same key undoes a shift, either way round. */
  lemma ShiftedInverse(v: nat, k: nat, encrypt: bool)
    requires v < 26 && k < 26
    ensures Shifted(Shifted(v, k, encrypt), k, !encrypt) == v
  {
    if encrypt {
      if v + k < 26 {
        ModUnique(v + k, 26, 0, v + k);
      } else {
        ModUnique(v + k, 26, 1, v + k - 26);
      }
    } else {
      if v >= k {
        ModUnique(v - k, 26, 0, v - k);
      } else {
        ModUnique(v - k, 26, -1, v - k + 26);
      }
    }
    ModUnique(v, 26, 0, v);
    var s := Shifted(v, k, encrypt);
    if encrypt {
      assert s - k == v || s - k == v - 26;
      ModUnique(s - k, 26, if s - k == v then 0 else -1, v);
    } else {
      assert s + k == v || s + k == v + 26;
      ModUnique(s + k, 26, if s + k == v then 0 else 1, v);
    }
  }

  /** The adjustment loops of the ciphers: the letter value v shifted by the
      key value k, kept within 0..25. */
  method Adjust(v: nat, k: nat, encrypt: bool) returns (ciph: int)
    requires v < 26 && k < 26
    ensures ciph == Shifted(v, k, encrypt)
  {
    if encrypt {
      ciph := k + v;
      while ciph > 25
        invariant ciph >= 0 && ciph % 26 == (v + k) % 26
      {
        ModShift(ciph - 26, 26, 1);
        ciph := ciph - 26;
      }
    } else {
      ciph := v - k;
      while ciph < 0
        invariant ciph <= 25 && ciph % 26 == (v - k) % 26
      {
        ModShift(ciph, 26, 1);
        ciph := ciph + 26;
      }
    }
    ModUnique(ciph, 26, 0, ciph);
  }

  // ---------------------------------------------------------------------
  // Vigenère

  /** Each letter of the prepared text shifted by the key letter at the same
      position mod the key's length. */
  function VigenereText(p: string, k: string, encrypt: bool): (r: string)
    requires |p| == 0 || |k| > 0
    ensures |r| == |p| && forall i :: 0 <= i < |r| ==> IsCapital(r[i])
  {
    seq(|p|, i requires 0 <= i < |p| => VigenereAt(p, k, i, encrypt))
  }

  /** Letter i of the text shifted by key letter i mod the key's length. */
  function VigenereAt(p: string, k: string, i: nat, encrypt: bool): (c: char)
    requires i < |p| && |k| > 0
    ensures IsCapital(c)
  {
    Letter(Shifted(Value(p[i]), Value(k[i % |k|]), encrypt))
  }

  /** VigenereCipher / VigenereDecipher: text and key prepared, then shifted;
      a nonempty text with a key that prepares to nothing reads key[0] of
      an empty string. */
  function VigenereSpec(input: string, key: string, encrypt: bool): Result<string>
  {
    var p, k := Prepare(input), Prepare(key);
    if |p| > 0 && |k| == 0 then Failure(IndexOutOfRange) else Success(VigenereText(p, k, encrypt))
  }

  /** The letter loop shared by VigenereCipher and VigenereDecipher: the key
      index wraps when it reaches the key's length. */
  method VigenereRun(text: string, key: string, encrypt: bool) returns (r: Result<string>)
    ensures |text| > 0 && |key| == 0 ==> r == Failure(IndexOutOfRange)
    ensures !(|text| > 0 && |key| == 0) ==> r == Success(VigenereText(text, key, encrypt))
  {
    var indexer := 0;
    var txtCipher := "";
    for i := 0 to |text|
      invariant |txtCipher| == i
      invariant i == 0 ==> indexer == 0
      invariant i > 0 ==> |key| > 0 && 1 <= indexer <= |key| && indexer - 1 == (i - 1) % |key|
      invariant forall j :: 0 <= j < i ==> |key| > 0 && txtCipher[j] == VigenereAt(text, key, j, encrypt)
    {
      if indexer == |key| {
        indexer := 0;
      }
      if indexer >= |key| {
        return Failure(IndexOutOfRange);
      }
      if i > 0 {
        ModNext(i - 1, |key|);
      }
      assert indexer == i % |key|;
      var a := GetLetterValue(key[indexer]);
      var b := GetLetterValue(text[i]);
      var ciph := Adjust(b, a, encrypt);
      assert Capitals[ciph] == VigenereAt(text, key, i, encrypt);
      txtCipher := txtCipher + [Capitals[ciph]];
      indexer := indexer + 1;
    }
    assert txtCipher == VigenereText(text, key, encrypt);
    return Success(txtCipher);
  }

  /** VigenereCipher (Classical.cs). */
  method VigenereCipher(input: string, key: string) returns (r: Result<string>)
    ensures r == VigenereSpec(input, key, true)
  {
    r := VigenereRun(Prepare(input), Prepare(key), true);
  }

  /** VigenereDecipher (Classical.cs). */
  method VigenereDecipher(input: string, key: string) returns (r: Result<string>)
    ensures r == VigenereSpec(input, key, false)
  {
    r := VigenereRun(Prepare(input), Prepare(key), false);
  }

  /** A text whose prepared form is all capitals comes back, prepared, from
      deciphering what was enciphered with the same key, and the other way
      round; the result is all capitals of the prepared length. */
  lemma VigenereRoundTrip(input: string, key: string, encrypt: bool)
    requires forall i :: 0 <= i < |Prepare(input)| ==> IsCapital(Prepare(input)[i])
    requires VigenereSpec(input, key, encrypt).Success?
    ensures |VigenereSpec(input, key, encrypt).value| == |Prepare(input)|
    ensures VigenereSpec(VigenereSpec(input, key, encrypt).value, key, !encrypt) == Success(Prepare(input))
  {
    var p, k := Prepare(input), Prepare(key);
    var c := VigenereText(p, k, encrypt);
    CapitalsPrepared(c);
    var d := VigenereText(c, k, !encrypt);
    forall i | 0 <= i < |p|
      ensures d[i] == p[i]
    {
      VigenereAtInverse(p, k, i, encrypt);
    }
    assert d == p;
  }

  lemma VigenereAtInverse(p: string, k: string, i: nat, encrypt: bool)
    requires i < |p| && |k| > 0 && IsCapital(p[i])
    ensures VigenereAt(VigenereText(p, k, encrypt), k, i, !encrypt) == p[i]
  {
    var c := VigenereText(p, k, encrypt);
    var key := Value(k[i % |k|]);
    ShiftedInverse(CapitalIndex(p[i]), key, encrypt);
    assert Value(c[i]) == Shifted(Value(p[i]), key, encrypt);
  }

  // ---------------------------------------------------------------------
  // Caesar

  /** Every character of the unprepared input replaced by the capital of its
      value shifted by the key's value. */
  function CaesarText(input: string, key: char, encrypt: bool): (r: string)
    ensures |r| == |input| && forall i :: 0 <= i < |r| ==> IsCapital(r[i])
  {
    seq(|input|, i requires 0 <= i < |input| => CaesarAt(input, key, i, encrypt))
  }

  /** Character i of the input as a capital, shifted by the key's value. */
  function CaesarAt(input: string, key: char, i: nat, encrypt: bool): (c: char)
    requires i < |input|
    ensures IsCapital(c)
  {
    Letter(Shifted(Value(input[i]), Value(key), encrypt))
  }

  /** The loop shared by CeaserCipher and CeaserDecipher: each position of a
      copy of the input overwritten in turn. */
  method CaesarRun(input: string, key: char, encrypt: bool) returns (txtOutput: string)
    ensures txtOutput == CaesarText(input, key, encrypt)
  {
    txtOutput := input;
    var valKey := GetLetterValue(key);
    for i := 0 to |input|
      invariant |txtOutput| == |input|
      invariant forall j :: 0 <= j < i ==> txtOutput[j] == CaesarAt(input, key, j, encrypt)
    {
      var v := GetLetterValue(input[i]);
      var newVal := Adjust(v, valKey, encrypt);
      assert Capitals[newVal] == CaesarAt(input, key, i, encrypt);
      txtOutput := txtOutput[i := Capitals[newVal]];
    }
  }

  /** CeaserCipher (Classical.cs). */
  method CeaserCipher(input: string, key: char) returns (r: string)
    ensures r == CaesarText(input, key, true)
  {
    r := CaesarRun(input, key, true);
  }

  /** CeaserDecipher (Classical.cs). */
  method CeaserDecipher(input: string, key: char) returns (r: string)
    ensures r == CaesarText(input, key, false)
  {
    r := CaesarRun(input, key, false);
  }

  /** A text of capitals comes back from deciphering what was enciphered with
      the same key, and the other way round. */
  lemma CaesarRoundTrip(input: string, key: char, encrypt: bool)
    requires forall i :: 0 <= i < |input| ==> IsCapital(input[i])
    ensures CaesarText(CaesarText(input, key, encrypt), key, !encrypt) == input
  {
    var c := CaesarText(input, key, encrypt);
    var d := CaesarText(c, key, !encrypt);
    forall i | 0 <= i < |input|
      ensures d[i] == input[i]
    {
      ShiftedInverse(CapitalIndex(input[i]), Value(key), encrypt);
    }
  }

  /** On a prepared text, Caesar with a key letter is Vigenère with the
      one-letter key. */
  lemma CaesarIsVigenere(input: string, key: char, encrypt: bool)
    requires Prepare(input) == input && Prepare([key]) == [key]
    ensures VigenereSpec(input, [key], encrypt) == Success(CaesarText(input, key, encrypt))
  {
    var v := VigenereText(input, [key], encrypt);
    forall i | 0 <= i < |input|
      ensures v[i] == CaesarText(input, key, encrypt)[i]
    {
      assert i % 1 == 0;
      assert v[i] == VigenereAt(input, [key], i, encrypt);
    }
    assert v == CaesarText(input, key, encrypt);
  }

  // ---------------------------------------------------------------------
  // Playfair

  /** The marking loop runs over the raw key's length but indexes the
      prepared key: it reads past the prepared key exactly when preparing
      shortened a key of two or more characters. */
  predicate KeyOverrun(key: string)
  {
    |key| >= 2 && |Prepare(key)| < |key|
  }

  /** A key overruns exactly when it has a blank and two or more characters. */
  lemma KeyOverrunBlank(key: string)
    ensures KeyOverrun(key) <==> |key| >= 2 && ' ' in key
  {
    if ' ' in key {
      var j :| 0 <= j < |key| && key[j] == ' ';
      assert Upper(key)[j] == ' ';
      WithoutShorter(Upper(key), ' ');
    } else {
      assert ' ' !in Upper(key);
    }
  }

  /** The marking loop of PlayfairCipher / PlayfairDecipher as written: i
      runs to key.Length over the prepared key, and skey[i] is read once an
      earlier position exists. */
  method MarkKeyAsWritten(key: string) returns (r: Result<string>)
    ensures KeyOverrun(key) ==> r == Failure(IndexOutOfRange)
    ensures !KeyOverrun(key) ==> r == Success(CppTool.Marked(Prepare(key)))
  {
    var skey := Prepare(key);
    ghost var p := skey;
    assert |p| <= |key|;
    for i := 0 to |key|
      invariant |skey| == |p|
      invariant i > 1 ==> |p| >= i
      invariant i <= |p| ==> skey == CppTool.Marked(p[..i]) + p[i..]
      invariant i > |p| ==> skey == p == []
    {
      if i > 0 && i >= |skey| {
        return Failure(IndexOutOfRange);
      }
      if i < |skey| {
        skey := MarkAt(skey, p, i);
      }
    }
    if |key| <= |p| {
      assert p[..|key|] == p && p[|key|..] == [];
      assert skey == CppTool.Marked(p);
    } else {
      assert p == [];
      assert skey == CppTool.Marked(p);
    }
    return Success(skey);
  }

  /** One round of the marking loop: position i becomes a blank when an
      earlier position holds the same character (the inner loop stops at
      the first match, which gives the same answer). */
  method MarkAt(skey: string, ghost p: string, i: nat) returns (r: string)
    requires i < |p| && ' ' !in p && skey == CppTool.Marked(p[..i]) + p[i..]
    ensures r == CppTool.Marked(p[..i + 1]) + p[i + 1..]
  {
    assert skey[..i] == CppTool.Marked(p[..i]) && skey[i] == p[i];
    var present := CppTool.Occurs(skey, skey[i], i);
    CppTool.MarkedMember(p[..i], p[i]);
    r := skey;
    if present {
      r := skey[i := ' '];
    }
    assert p[..i + 1][..i] == p[..i];
  }

  /** Marking then preparing a prepared key keeps each letter's first
      occurrence: the shortened key. */
  lemma MarkedPrepared(p: string)
    requires Upper(p) == p && ' ' !in p
    ensures Prepare(CppTool.Marked(p)) == CppTool.ShortKey(p)
  {
    var m := CppTool.Marked(p);
    forall i | 0 <= i < |m|
      ensures UpperChar(m[i]) == m[i]
    {
      if m[i] != ' ' {
        CppTool.MarkedMember(p, m[i]);
        var j :| 0 <= j < |p| && p[j] == m[i];
        assert Upper(p)[j] == p[j];
      }
    }
    assert Upper(m) == m;
    CppTool.MarkedDedup(p);
  }

  /** Blanking letters of a text of capitals keeps it upper-case. */
  lemma {:induction false} BlankOutUpper(s: string, drop: string)
    requires forall i :: 0 <= i < |s| ==> IsCapital(s[i])
    ensures Upper(CppTool.BlankOut(s, drop)) == CppTool.BlankOut(s, drop)
  {
    if s != [] {
      var t := s[..|s| - 1];
      BlankOutUpper(t, drop);
      var b := CppTool.BlankOut(s, drop);
      assert b == CppTool.BlankOut(t, drop) + [if s[|s| - 1] in drop then ' ' else s[|s| - 1]];
      forall i | 0 <= i < |b|
        ensures UpperChar(b[i]) == b[i]
      {
        if i < |b| - 1 {
          assert b[i] == CppTool.BlankOut(t, drop)[i];
          assert Upper(CppTool.BlankOut(t, drop))[i] == b[i];
        }
      }
    }
  }

  /** The grid of PlayfairCipher / PlayfairDecipher from the marked key: the
      key prepared again, the blank-out loop over the alphabet, the
      alphabet prepared, the two appended, and the first 25 letters filled
      row by row. */
  method KeyGridFrom(marked: string, ghost p: string, omit: char) returns (grid: array2<char>)
    requires Upper(p) == p && ' ' !in p && marked == CppTool.Marked(p)
    ensures fresh(grid) && grid.Length0 == 5 && grid.Length1 == 5
    ensures Contents(grid) == CppTool.SquareOf(p, omit)
  {
    MarkedPrepared(p);
    var skey := Prepare(marked);
    var salpha := CppTool.BlankOutLetters(SAlpha, skey, omit);
    SAlphaLetters();
    BlankOutUpper(SAlpha, skey + [omit]);
    CppTool.BlankOutWithout(SAlpha, skey + [omit]);
    salpha := Prepare(salpha);
    skey := skey + salpha;
    SquareFacts(CppTool.ShortKey(p), omit);
    grid := FillGrid(skey);
  }

  /** The prepared text padded with 'Z' to even length. */
  method PadText(input: string) returns (plaintext: string)
    ensures plaintext == CppTool.Prepared(input)
  {
    var prepared := Prepare(input);
    PreparedFixed(input);
    plaintext := Prepare(prepared);
    if |plaintext| % 2 != 0 {
      plaintext := plaintext + "Z";
    }
  }

  /** The Playfair square of a key and omitted letter. */
  function KeySquareOf(key: string, omit: char): (g: string)
    ensures |g| == 25 && Distinct(g)
  {
    CppTool.SquareOf(Prepare(key), omit)
  }

  /** PlayfairCipher / PlayfairDecipher once the grid is built: the padded
      prepared text through the square, a letter outside the grid taking
      the cell (0, 0) its zero-initialised cell array holds. */
  function PlayfairText(input: string, key: string, omit: char, forward: bool): (r: string)
    ensures |r| == |CppTool.Prepared(input)|
  {
    var g, t := KeySquareOf(key, omit), CppTool.Prepared(input);
    CryptTotal(g, t, forward, Cell(0, 0));
    Crypt(g, t, forward, Some(Cell(0, 0))).value
  }

  /** PlayfairCipher / PlayfairDecipher as written: the marking loop throws
      for a key it overruns. */
  function PlayfairAsWritten(input: string, key: string, omit: char, forward: bool): Result<string>
  {
    if KeyOverrun(key) then Failure(IndexOutOfRange) else Success(PlayfairText(input, key, omit, forward))
  }

  /** The digraph loop over the padded text, with the fallback cell (0, 0). */
  method CryptText(grid: array2<char>, ghost key: string, input: string, omit: char, forward: bool) returns (r: string)
    requires grid.Length0 == 5 && grid.Length1 == 5 && Contents(grid) == KeySquareOf(key, omit)
    ensures r == PlayfairText(input, key, omit, forward)
  {
    var plaintext := PadText(input);
    var ciphertext := CryptGrid(grid, plaintext, forward, Some(Cell(0, 0)));
    CryptTotal(Contents(grid), plaintext, forward, Cell(0, 0));
    r := ciphertext.value;
  }

  /** The body shared by PlayfairCipher and PlayfairDecipher as written. */
  method PlayfairRunAsWritten(input: string, key: string, omit: char, forward: bool) returns (r: Result<string>)
    ensures r == PlayfairAsWritten(input, key, omit, forward)
  {
    var marked := MarkKeyAsWritten(key);
    if marked.Failure? {
      return Failure(marked.error);
    }
    PreparedFixed(key);
    var grid := KeyGridFrom(marked.value, Prepare(key), omit);
    var text := CryptText(grid, key, input, omit, forward);
    return Success(text);
  }

  /** The same body with the marking loop over the prepared key's length. */
  method PlayfairRun(input: string, key: string, omit: char, forward: bool) returns (r: string)
    ensures r == PlayfairText(input, key, omit, forward)
  {
    PreparedFixed(key);
    var marked := CppTool.MarkRepeats(Prepare(key));
    var grid := KeyGridFrom(marked, Prepare(key), omit);
    r := CryptText(grid, key, input, omit, forward);
  }

  /** PlayfairCipher as written: the omitted letter is used as given. */
  method PlayfairCipherAsWritten(input: string, key: string, omit: char) returns (r: Result<string>)
    ensures r == PlayfairAsWritten(input, key, omit, true)
  {
    r := PlayfairRunAsWritten(input, key, omit, true);
  }

  /** The capital at the small letter's index in the alphabet, for a small
      letter; any other character as it is. */
  method UpperOmit(omit: char) returns (o: char)
    ensures o == UpperChar(omit)
  {
    o := omit;
    if 'a' <= o <= 'z' {
      CapitalsDistinct();
      o := Capitals[o as int - 'a' as int];
    }
  }

  /** PlayfairDecipher as written: a lower-case omitted letter is first
      replaced by its capital. */
  method PlayfairDecipherAsWritten(input: string, key: string, omit: char) returns (r: Result<string>)
    ensures r == PlayfairAsWritten(input, key, UpperChar(omit), false)
  {
    var o := UpperOmit(omit);
    r := PlayfairRunAsWritten(input, key, o, false);
  }

  /** PlayfairCipher corrected: the marking loop bounded by the prepared
      key, and the omitted letter upper-cased as in PlayfairDecipher. */
  method PlayfairCipher(input: string, key: string, omit: char) returns (r: string)
    ensures r == PlayfairText(input, key, UpperChar(omit), true)
  {
    r := PlayfairRun(input, key, UpperChar(omit), true);
  }

  /** PlayfairDecipher corrected: the marking loop bounded by the prepared key. */
  method PlayfairDecipher(input: string, key: string, omit: char) returns (r: string)
    ensures r == PlayfairText(input, key, UpperChar(omit), false)
  {
    r := PlayfairRun(input, key, UpperChar(omit), false);
  }

  /** As written, a key with a blank throws from the marking loop. */
  lemma PlayfairBlankKey()
    ensures PlayfairAsWritten("ATTACK", "PLAY FAIR", 'Q', true) == Failure(IndexOutOfRange)
  {
    KeyOverrunBlank("PLAY FAIR");
    assert "PLAY FAIR"[4] == ' ';
  }

  /** As written, a prepared key never overruns: the corrected marking loop
      agrees with the one written. */
  lemma PreparedKeyAsWritten(input: string, key: string, omit: char, forward: bool)
    requires ' ' !in key
    ensures PlayfairAsWritten(input, key, omit, forward) == Success(PlayfairText(input, key, omit, forward))
  {
    KeyOverrunBlank(key);
  }

  /** With the same key and omitted letter, PlayfairDecipher undoes
      PlayfairCipher on a text whose padded letters are all in the square,
      and the other way round. */
  lemma PlayfairRoundTrip(input: string, key: string, omit: char, forward: bool)
    requires forall c :: c in CppTool.Prepared(input) ==> c in KeySquareOf(key, UpperChar(omit))
    ensures var o := UpperChar(omit);
      PlayfairText(PlayfairText(input, key, o, forward), key, o, !forward) == CppTool.Prepared(input)
  {
    var o := UpperChar(omit);
    var g, t := KeySquareOf(key, o), CppTool.Prepared(input);
    CryptRoundTrip(g, t, Some(Cell(0, 0)), forward);
    var c := Crypt(g, t, forward, Some(Cell(0, 0))).value;
    CppTool.PreparedGridText(g, c);
  }

  /** A text of letters and blanks avoiding the omitted capital, under a key
      of letters and blanks without it, has all its padded letters in the
      square, so the round trip applies to it. */
  lemma PlayfairLetters(input: string, key: string, omit: char)
    requires IsCapital(UpperChar(omit)) && UpperChar(omit) !in Prepare(key)
    requires forall c :: c in key ==> c == ' ' || IsCapital(UpperChar(c))
    requires forall c :: c in input ==> c == ' ' || (IsCapital(UpperChar(c)) && UpperChar(c) != UpperChar(omit))
    requires |Prepare(input)| % 2 == 0 || UpperChar(omit) != 'Z'
    ensures forall c :: c in CppTool.Prepared(input) ==> c in KeySquareOf(key, UpperChar(omit))
  {
    var o, p := UpperChar(omit), Prepare(key);
    PreparedFixed(key);
    forall c | c in p
      ensures c == ' ' || IsCapital(UpperChar(c))
    {
      var j :| 0 <= j < |Upper(key)| && Upper(key)[j] == c;
    }
    CppTool.SquareOfCovers(p, o);
    forall c | c in CppTool.Prepared(input)
      ensures c in KeySquareOf(key, o)
    {
      if c in Prepare(input) {
        var j :| 0 <= j < |Upper(input)| && Upper(input)[j] == c;
      }
    }
  }

  /** The empty key's square: SAlpha without the omitted letter, cut to 25. */
  lemma EmptyKeySquare(omit: char)
    ensures |Except(SAlpha, [omit])| >= 25 && KeySquareOf("", omit) == Except(SAlpha, [omit])[..25]
  {
    assert Upper("") == [];
    assert Dedup(Upper("")) == [];
    assert Prepare("") == "" && CppTool.ShortKey("") == "";
    SquareFacts("", omit);
    assert "" + [omit] == [omit];
    assert Square("", omit) == Except(SAlpha, [omit]);
  }

  /** The square of the empty key without Q: SAlpha with Q taken out. */
  lemma SquareWithoutQ()
    ensures var g := KeySquareOf("", 'Q'); g[6] == 'G' && g[8] == 'I' && g[16] == 'R' && g[18] == 'T'
  {
    EmptyKeySquare('Q');
    SAlphaAt();
    SAlphaDistinct();
    var a, b := SAlpha[..17], SAlpha[18..];
    assert SAlpha == a + [SAlpha[17]] + b;
    assert SAlpha[17] == 'Q';
    ExceptAppend(a + [SAlpha[17]], b, ['Q']);
    ExceptAppend(a, [SAlpha[17]], ['Q']);
    ExceptNothing(a, ['Q']);
    ExceptNothing(b, ['Q']);
    assert Except([SAlpha[17]], ['Q']) == Except([], ['Q']) == [];
    var g := Except(SAlpha, ['Q']);
    assert g == a + b;
    assert g[6] == SAlpha[6] && g[8] == SAlpha[8] && g[16] == SAlpha[16] && g[18] == SAlpha[19];
  }

  /** The square of the empty key and a lower-case q: q matches no capital,
      so SAlpha is kept whole and Z falls off the end. */
  lemma SquareWithLowerQ()
    ensures var g := KeySquareOf("", 'q'); g[6] == 'G' && g[8] == 'I' && g[16] == 'R' && g[18] == 'S'
  {
    EmptyKeySquare('q');
    SAlphaLetters();
    ExceptNothing(SAlpha, ['q']);
    SAlphaAt();
    var g := KeySquareOf("", 'q');
    assert g[6] == SAlpha[6] && g[8] == SAlpha[8] && g[16] == SAlpha[16] && g[18] == SAlpha[18];
  }

  /** A square with G in cell (1, 1), S in (3, 3), I in (1, 3) and R in
      (3, 1): "GS" spans a rectangle and enciphers to "IR". */
  lemma EncipherGS(g: seq<char>)
    requires |g| == 25 && g[8] == 'I' && g[16] == 'R'
    requires Locate(g, 'G') == Some(Cell(1, 1)) && Locate(g, 'S') == Some(Cell(3, 3))
    ensures Crypt(g, "GS", true, Some(Cell(0, 0))) == Success("IR")
  {
    PairOutCells(g, 'G', 'S', true, Some(Cell(0, 0)), Cell(1, 1), Cell(3, 3));
    CryptOnePair(g, 'G', 'S', true, Some(Cell(0, 0)));
  }

  /** A square with I in cell (1, 3), R in (3, 1), G in (1, 1) and T in
      (3, 3): "IR" spans a rectangle and deciphers to "GT". */
  lemma DecipherIR(g: seq<char>)
    requires |g| == 25 && g[6] == 'G' && g[18] == 'T'
    requires Locate(g, 'I') == Some(Cell(1, 3)) && Locate(g, 'R') == Some(Cell(3, 1))
    ensures Crypt(g, "IR", false, Some(Cell(0, 0))) == Success("GT")
  {
    PairOutCells(g, 'I', 'R', false, Some(Cell(0, 0)), Cell(1, 3), Cell(3, 1));
    CryptOnePair(g, 'I', 'R', false, Some(Cell(0, 0)));
  }

  /** As written, PlayfairCipher keeps a lower-case omitted letter while
      PlayfairDecipher upper-cases it: the two use different squares, and
      "GS" enciphered with the empty key and 'q' deciphers to "GT". */
  lemma PlayfairOmitCase()
    ensures PlayfairAsWritten("GS", "", 'q', true) == Success("IR")
    ensures PlayfairAsWritten("IR", "", UpperChar('q'), false) == Success("GT")
  {
    assert !KeyOverrun("");
    OmitCaseCipher();
    OmitCaseDecipher();
  }

  lemma OmitCaseCipher()
    ensures PlayfairText("GS", "", 'q', true) == "IR"
  {
    assert Upper("GS") == "GS";
    assert CppTool.Prepared("GS") == "GS";
    var gq := KeySquareOf("", 'q');
    SquareWithLowerQ();
    LocateDistinct(gq, Cell(1, 1));
    LocateDistinct(gq, Cell(3, 3));
    EncipherGS(gq);
  }

  lemma OmitCaseDecipher()
    ensures PlayfairText("IR", "", 'Q', false) == "GT"
  {
    assert Upper("IR") == "IR";
    assert CppTool.Prepared("IR") == "IR";
    var gQ := KeySquareOf("", 'Q');
    SquareWithoutQ();
    LocateDistinct(gQ, Cell(1, 3));
    LocateDistinct(gQ, Cell(3, 1));
    DecipherIR(gQ);
  }

  // ---------------------------------------------------------------------
  // Dictionary attack

  /** w occurs in s at position i. */
  predicate At(s: string, w: string, i: int)
  {
    0 <= i <= |s| - |w| && s[i..i + |w|] == w
  }

  /** string.Contains: w occurs in s at some position. */
  predicate Contains(s: string, w: string)
  {
    exists i :: 0 <= i <= |s| - |w| && At(s, w, i)
  }

  /** When w is not at the front of s, it occurs in s exactly when it occurs
      in s without its first character. */
  lemma ContainsTail(s: string, w: string)
    requires |s| >= |w| > 0 && s[..|w|] != w
    ensures Contains(s, w) <==> Contains(s[1..], w)
  {
    if Contains(s, w) {
      var i :| 0 <= i <= |s| - |w| && At(s, w, i);
      assert i != 0;
      assert s[1..][i - 1..i - 1 + |w|] == w;
      assert At(s[1..], w, i - 1);
    }
    if Contains(s[1..], w) {
      var i :| 0 <= i <= |s| - 1 - |w| && At(s[1..], w, i);
      assert s[i + 1..i + 1 + |w|] == w;
      assert At(s, w, i + 1);
    }
  }

  /** string.Replace(w, ""): the occurrences of w met scanning left to
      right, the scan resuming after each one removed, deleted. */
  function Replace(s: string, w: string): (r: string)
    requires |w| > 0
    ensures |r| <= |s|
    ensures Contains(s, w) ==> |r| <= |s| - |w|
    ensures !Contains(s, w) ==> r == s
    decreases |s|
  {
    if |s| < |w| then s
    else if s[..|w|] == w then
      assert At(s, w, 0);
      Replace(s[|w|..], w)
    else
      ContainsTail(s, w);
      var r := [s[0]] + Replace(s[1..], w);
      assert !Contains(s, w) ==> r == [s[0]] + s[1..] == s;
      r
  }

  /** CheckDictionary: an empty text passes; otherwise the first word of
      three or more letters found in the text is removed wherever the scan
      meets it, and the text passes when fewer than three characters remain,
      or when what remains passes in turn. */
  function Check(lang: seq<string>, input: string): bool
    decreases |input|, |lang| + 1
  {
    if |input| == 0 then true else CheckFrom(lang, input, 0)
  }

  /** The word loop of CheckDictionary from word k on. */
  function CheckFrom(lang: seq<string>, input: string, k: nat): bool
    requires k <= |lang|
    decreases |input|, |lang| - k
  {
    if k == |lang| then false
    else
      var word := lang[k];
      if |word| < 3 || !Contains(input, word) then CheckFrom(lang, input, k + 1)
      else
        var next := Replace(input, word);
        |next| < 3 || Check(lang, next)
  }

  lemma {:induction false} CheckFromSound(lang: seq<string>, input: string, j: nat)
    requires j <= |lang| && CheckFrom(lang, input, j)
    ensures exists k :: j <= k < |lang| && |lang[k]| >= 3 && Contains(input, lang[k])
    decreases |lang| - j
  {
    if |lang[j]| < 3 || !Contains(input, lang[j]) {
      CheckFromSound(lang, input, j + 1);
    }
  }

  /** A nonempty text passes only if some word of three or more letters of
      the language dictionary occurs in it. */
  lemma CheckSound(lang: seq<string>, input: string)
    requires |input| > 0 && Check(lang, input)
    ensures exists k :: 0 <= k < |lang| && |lang[k]| >= 3 && Contains(input, lang[k])
  {
    CheckFromSound(lang, input, 0);
  }

  lemma {:induction false} CheckSkip(lang: seq<string>, input: string, j: nat, k: nat)
    requires j <= k < |lang|
    requires forall i :: j <= i < k ==> |lang[i]| < 3 || !Contains(input, lang[i])
    ensures CheckFrom(lang, input, j) == CheckFrom(lang, input, k)
    decreases k - j
  {
    if j < k {
      CheckSkip(lang, input, j + 1, k);
    }
  }

  /** The first word of three or more letters that occurs in the text alone
      decides: the text passes exactly when removing that word leaves fewer
      than three characters or leaves a text that passes. */
  lemma CheckFirstMatch(lang: seq<string>, input: string, k: nat)
    requires |input| > 0 && k < |lang| && |lang[k]| >= 3 && Contains(input, lang[k])
    requires forall i :: 0 <= i < k ==> |lang[i]| < 3 || !Contains(input, lang[i])
    ensures Check(lang, input) == (|Replace(input, lang[k])| < 3 || Check(lang, Replace(input, lang[k])))
  {
    CheckSkip(lang, input, 0, k);
  }

  /** The check can refuse a text that is itself a dictionary word: a
      shorter word listed first is removed from it, and the rest matches
      nothing. */
  lemma CheckRefusesWord()
    ensures Check(["ABC", "ABCDEF"], "ABCDEF") == false
  {
    var lang := ["ABC", "ABCDEF"];
    assert "ABCDEF"[..3] == "ABC" && "ABCDEF"[3..] == "DEF";
    assert At("ABCDEF", "ABC", 0);
    assert "DEF"[..3][0] == 'D';
    assert Replace("DEF", "ABC") == "DEF";
    assert Replace("ABCDEF", "ABC") == "DEF";
    assert !Contains("DEF", "ABC") by {
      forall i | 0 <= i <= 0
        ensures !At("DEF", "ABC", i)
      {
        assert "DEF"[i..i + 3][0] == 'D';
      }
    }
    assert !Contains("DEF", "ABCDEF");
    assert CheckFrom(lang, "DEF", 0) == false;
  }

  /** The kind of a dictionary: words to try as keys, words of the
      language, or both. */
  datatype DictionaryType = Language | Key | Combined

  /** A key that was tried and the text it gave. */
  datatype AttackPossibility = AttackPossibility(key: string, output: string)

  /** AttackPossibility.ToString: the key and the output, labelled. */
  function Describe(p: AttackPossibility): (r: string)
    ensures |r| == 14 + |p.key| + |p.output|
    ensures r[5..5 + |p.key|] == p.key && r[|r| - |p.output|..] == p.output
  {
    "Key: " + p.key + " Output: " + p.output
  }

  /** Every line prepared. */
  function PrepareAll(lines: seq<string>): (r: seq<string>)
    ensures |r| == |lines| && forall k :: k in r ==> ' ' !in k
  {
    seq(|lines|, i requires 0 <= i < |lines| => Prepare(lines[i]))
  }

  /** The keys of a dictionary tried in order: each key's decipherment of
      the ciphertext kept when it passes the check. */
  function AttackWith(keys: seq<string>, lang: seq<string>, decipher: string -> string): seq<AttackPossibility>
  {
    if keys == [] then []
    else
      var key := keys[|keys| - 1];
      var output := decipher(key);
      AttackWith(keys[..|keys| - 1], lang, decipher) + (if Check(lang, output) then [AttackPossibility(key, output)] else [])
  }

  /** The Playfair attack with one omitted letter: each key deciphers the
      prepared ciphertext. */
  function Attack(keys: seq<string>, lang: seq<string>, text: string, omit: char): seq<AttackPossibility>
  {
    AttackWith(keys, lang, key => PlayfairText(text, key, UpperChar(omit), false))
  }

  /** Trying one more key appends its possibility when its decipherment
      passes. */
  lemma AttackSnoc(keys: seq<string>, key: string, lang: seq<string>, text: string, omit: char)
    ensures var output := PlayfairText(text, key, UpperChar(omit), false);
      Attack(keys + [key], lang, text, omit) ==
      Attack(keys, lang, text, omit) + (if Check(lang, output) then [AttackPossibility(key, output)] else [])
  {
    assert (keys + [key])[..|keys|] == keys;
  }

  /** The decipherment under key passes the check and gives p. */
  predicate Passes(lang: seq<string>, decipher: string -> string, key: string, p: AttackPossibility)
  {
    p.key == key && p.output == decipher(key) && Check(lang, p.output)
  }

  /** What the attack reports comes from a key of the dictionary whose
      decipherment passes. */
  lemma {:induction false} AttackSound(keys: seq<string>, lang: seq<string>, decipher: string -> string, p: AttackPossibility)
    requires p in AttackWith(keys, lang, decipher)
    ensures p.key in keys && Passes(lang, decipher, p.key, p)
  {
    var front := keys[..|keys| - 1];
    assert keys == front + [keys[|keys| - 1]];
    if p !in AttackWith(front, lang, decipher) {
      assert p.key == keys[|keys| - 1];
    } else {
      AttackSound(front, lang, decipher, p);
    }
  }

  /** Every key of the dictionary whose decipherment passes is reported. */
  lemma {:induction false} AttackComplete(keys: seq<string>, lang: seq<string>, decipher: string -> string, p: AttackPossibility)
    requires p.key in keys && Passes(lang, decipher, p.key, p)
    ensures p in AttackWith(keys, lang, decipher)
  {
    var front := keys[..|keys| - 1];
    assert keys == front + [keys[|keys| - 1]];
    if p.key != keys[|keys| - 1] {
      AttackComplete(front, lang, decipher, p);
    }
  }

  /** A possibility is reported exactly when its key is in the dictionary,
      its output is that key's decipherment, and the output passes. */
  lemma AttackExactly(keys: seq<string>, lang: seq<string>, text: string, omit: char, p: AttackPossibility)
    ensures p in Attack(keys, lang, text, omit) <==>
      p.key in keys && p.output == PlayfairText(text, p.key, UpperChar(omit), false) && Check(lang, p.output)
  {
    var decipher := key => PlayfairText(text, key, UpperChar(omit), false);
    assert Attack(keys, lang, text, omit) == AttackWith(keys, lang, decipher);
    if p in Attack(keys, lang, text, omit) {
      AttackSound(keys, lang, decipher, p);
    }
    if p.key in keys && p.output == PlayfairText(text, p.key, UpperChar(omit), false) && Check(lang, p.output) {
      assert Passes(lang, decipher, p.key, p);
      AttackComplete(keys, lang, decipher, p);
    }
  }

  /** The attack with each of the first n capitals as the omitted letter. */
  function AttackAll(keys: seq<string>, lang: seq<string>, text: string, n: nat): seq<AttackPossibility>
    requires n <= 26
  {
    if n == 0 then [] else AttackAll(keys, lang, text, n - 1) + Attack(keys, lang, text, Capitals[n - 1])
  }

  /** p is reported by the attack with capital j as the omitted letter. */
  predicate ReportedWith(keys: seq<string>, lang: seq<string>, text: string, j: int, p: AttackPossibility)
  {
    0 <= j < 26 && p in Attack(keys, lang, text, Capitals[j])
  }

  /** What the full attack reports, some omitted capital reports. */
  lemma {:induction false} AttackAllSound(keys: seq<string>, lang: seq<string>, text: string, n: nat, p: AttackPossibility)
    requires n <= 26 && p in AttackAll(keys, lang, text, n)
    ensures exists j :: 0 <= j < n && ReportedWith(keys, lang, text, j, p)
  {
    var prev, last := AttackAll(keys, lang, text, n - 1), Attack(keys, lang, text, Capitals[n - 1]);
    assert AttackAll(keys, lang, text, n) == prev + last;
    if p in last {
      assert ReportedWith(keys, lang, text, n - 1, p);
    } else {
      AttackAllSound(keys, lang, text, n - 1, p);
    }
  }

  /** What some omitted capital among the first n reports, the full attack
      reports. */
  lemma {:induction false} AttackAllComplete(keys: seq<string>, lang: seq<string>, text: string, n: nat, j: nat, p: AttackPossibility)
    requires j < n <= 26 && ReportedWith(keys, lang, text, j, p)
    ensures p in AttackAll(keys, lang, text, n)
  {
    var prev, last := AttackAll(keys, lang, text, n - 1), Attack(keys, lang, text, Capitals[n - 1]);
    assert AttackAll(keys, lang, text, n) == prev + last;
    if j < n - 1 {
      AttackAllComplete(keys, lang, text, n - 1, j, p);
    }
  }

  /** A possibility is reported by the full attack exactly when some omitted
      capital reports it. */
  lemma AttackAllExactly(keys: seq<string>, lang: seq<string>, text: string, n: nat, p: AttackPossibility)
    requires n <= 26
    ensures p in AttackAll(keys, lang, text, n) <==> exists j :: 0 <= j < n && ReportedWith(keys, lang, text, j, p)
  {
    if p in AttackAll(keys, lang, text, n) {
      AttackAllSound(keys, lang, text, n, p);
    }
    if exists j :: 0 <= j < n && ReportedWith(keys, lang, text, j, p) {
      var j :| 0 <= j < n && ReportedWith(keys, lang, text, j, p);
      AttackAllComplete(keys, lang, text, n, j, p);
    }
  }

  /** CheckDictionary: the word loop with its recursion on what is left.
      The depth is passed down but never consulted. */
  method CheckWords(lang: seq<string>, input: string, depth: int) returns (b: bool)
    ensures b == Check(lang, input)
    decreases |input|
  {
    if |input| == 0 {
      return true;
    }
    for k := 0 to |lang|
      invariant CheckFrom(lang, input, k) == CheckFrom(lang, input, 0)
    {
      var word := lang[k];
      if |word| < 3 {
        continue;
      }
      if Contains(input, word) {
        var nextInput := Replace(input, word);
        if |nextInput| < 3 {
          return true;
        }
        b := CheckWords(lang, nextInput, depth - 1);
        return;
      }
    }
    return false;
  }

  /** The line loop of LoadDictionary: each line of the stream prepared, in
      stream order. */
  method PrepareLines(lines: seq<string>) returns (all: seq<string>)
    ensures all == PrepareAll(lines)
  {
    all := [];
    for i := 0 to |lines|
      invariant all == PrepareAll(lines)[..i]
    {
      all := all + [Prepare(lines[i])];
    }
  }

  /** The class's static dictionaries and the flag saying they were loaded. */
  class Dictionaries {
    var keyDict: seq<string>
    var langDict: seq<string>
    var dictLoaded: bool

    /** Every key has had its blanks removed. */
    predicate Valid()
      reads this
    {
      forall k :: k in keyDict ==> ' ' !in k
    }

    /** The static state before any dictionary is loaded. */
    constructor()
      ensures keyDict == [] && langDict == [] && !dictLoaded && Valid()
    {
      keyDict, langDict, dictLoaded := [], [], false;
    }

    /** LoadDictionary(stream, type): both lists emptied, each line prepared
        and added to the key list, the language list or both, and the
        dictionaries marked loaded. */
    method LoadDictionary(lines: seq<string>, kind: DictionaryType)
      modifies this
      ensures keyDict == (if kind != Language then PrepareAll(lines) else [])
      ensures langDict == (if kind != Key then PrepareAll(lines) else [])
      ensures dictLoaded && Valid()
    {
      keyDict := [];
      langDict := [];
      var all := PrepareLines(lines);
      if kind == Key || kind == Combined {
        keyDict := all;
      }
      if kind == Language || kind == Combined {
        langDict := all;
      }
      dictLoaded := true;
    }

    /** CheckDictionary(input, depth) on the language dictionary. */
    method CheckDictionary(input: string, depth: int) returns (b: bool)
      ensures b == Check(langDict, input)
    {
      b := CheckWords(langDict, input, depth);
    }

    /** PlayfairHack(input, omit): each key of the key dictionary deciphers
        the prepared input, and the outputs that pass the check are kept, in
        key order. */
    method PlayfairHackOmit(input: string, omit: char) returns (r: Result<seq<AttackPossibility>>)
      requires Valid()
      ensures !dictLoaded ==> r == Failure(InvalidOperation("Dictionary not loaded"))
      ensures dictLoaded ==> r == Success(Attack(keyDict, langDict, Prepare(input), omit))
    {
      if !dictLoaded {
        return Failure(InvalidOperation("Dictionary not loaded"));
      }
      var text := Prepare(input);
      var result := [];
      for i := 0 to |keyDict|
        invariant result == Attack(keyDict[..i], langDict, text, omit)
      {
        result := TryKey(text, omit, i, result);
      }
      assert keyDict[..|keyDict|] == keyDict;
      return Success(result);
    }

    /** One pass of PlayfairHack(input, omit): the key at i deciphers the
        text, and the output is kept when it passes the check. */
    method TryKey(text: string, omit: char, i: nat, result: seq<AttackPossibility>) returns (next: seq<AttackPossibility>)
      requires Valid() && i < |keyDict|
      requires result == Attack(keyDict[..i], langDict, text, omit)
      ensures next == Attack(keyDict[..i + 1], langDict, text, omit)
    {
      var key := keyDict[i];
      assert key in keyDict;
      ghost var d := PlayfairText(text, key, UpperChar(omit), false);
      PreparedKeyAsWritten(text, key, UpperChar(omit), false);
      var output := PlayfairDecipherAsWritten(text, key, omit);
      assert output == Success(d);
      var found := CheckDictionary(output.value, 3);
      AttackSnoc(keyDict[..i], key, langDict, text, omit);
      PrefixSnoc(keyDict, i);
      next := result + if found then [AttackPossibility(key, output.value)] else [];
    }

    /** PlayfairHack(input): the attack repeated with each capital as the
        omitted letter, the results appended in alphabetical order. */
    method PlayfairHack(input: string) returns (r: Result<seq<AttackPossibility>>)
      requires Valid()
      ensures !dictLoaded ==> r == Failure(InvalidOperation("Dictionary not loaded"))
      ensures dictLoaded ==> r == Success(AttackAll(keyDict, langDict, Prepare(input), 26))
    {
      var result := [];
      for n := 0 to 26
        invariant n > 0 ==> dictLoaded
        invariant result == AttackAll(keyDict, langDict, Prepare(input), n)
      {
        var chHack := PlayfairHackOmit(input, Capitals[n]);
        if chHack.Failure? {
          return chHack;
        }
        result := result + chHack.value;
      }
      return Success(result);
    }
  }
}
