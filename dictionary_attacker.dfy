/** The base of the Horus classical ciphers that can be attacked with a
    dictionary: a key dictionary of keys to try, a language dictionary that
    decides whether a decipherment reads as text, and the word check. */
module DictionaryAttack {
  import opened Classical
  import Text

  /** The lines a dictionary stream yields before reading stops: reading
      ends at the end of the stream or at the first empty line. */
  function UntilEmpty(lines: seq<string>): (r: seq<string>)
    ensures |r| <= |lines| && r == lines[..|r|]
    ensures forall w :: w in r ==> w != ""
    ensures |r| < |lines| ==> lines[|r|] == ""
  {
    if lines == [] || lines[0] == "" then []
    else [lines[0]] + UntilEmpty(lines[1..])
  }

  class DictionaryAttacker {
    var keyDictionary: seq<string>
    var languageDictionary: seq<string>
    var dictLoaded: bool
    var matchLength: int

    /** A new attacker: nothing loaded, a match length of 3. The dictionary
        lists start out null; the model starts them empty. */
    constructor()
      ensures keyDictionary == [] && languageDictionary == [] && !dictLoaded && matchLength == 3
    {
      keyDictionary, languageDictionary := [], [];
      dictLoaded, matchLength := false, 3;
    }

    /** LoadDictionary(stream, type): both lists replaced; every line read
        before the first empty one goes to the key list, the language list
        or both, unchanged; then the dictionaries count as loaded. */
    method LoadDictionary(lines: seq<string>, kind: DictionaryType)
      modifies this
      ensures keyDictionary == (if kind != Language then UntilEmpty(lines) else [])
      ensures languageDictionary == (if kind != Key then UntilEmpty(lines) else [])
      ensures dictLoaded && matchLength == old(matchLength)
      ensures forall w :: w in keyDictionary ==> w in lines && w != ""
    {
      keyDictionary := [];
      languageDictionary := [];
      var i := 0;
      while i < |lines| && lines[i] != ""
        invariant 0 <= i <= |UntilEmpty(lines)|
        invariant UntilEmpty(lines)[..i] == lines[..i]
        invariant keyDictionary == (if kind != Language then lines[..i] else [])
        invariant languageDictionary == (if kind != Key then lines[..i] else [])
        invariant matchLength == old(matchLength)
      {
        var str := lines[i];
        if kind == Key || kind == Combined {
          keyDictionary := keyDictionary + [str];
        }
        if kind == Language || kind == Combined {
          languageDictionary := languageDictionary + [str];
        }
        Text.PrefixSnoc(lines, i);
        i := i + 1;
      }
      ghost var words := UntilEmpty(lines);
      assert forall j :: 0 <= j < |words| ==> words[j] == lines[j] && words[j] in words;
      assert lines[..i] == words;
      dictLoaded := true;
    }

    /** CheckDictionary(input): the word check on the language dictionary,
        with the match length as its (unused) depth. */
    method CheckDictionary(input: string) returns (b: bool)
      ensures b == Check(languageDictionary, input)
      ensures b && |input| > 0 ==>
        exists k :: 0 <= k < |languageDictionary| && |languageDictionary[k]| >= 3 && Contains(input, languageDictionary[k])
    {
      b := CheckWords(languageDictionary, input, matchLength);
      if b && |input| > 0 {
        CheckSound(languageDictionary, input);
      }
    }
  }
}
