# LiquidSnow classical ciphers, Enigma machine, HSL colour and Pluto book: a Dafny model

This project models the classical-cipher core of the LiquidSnow repository.
It comes in two generations.

- The original console tool `Enigma/_dump/main.cpp` and its C# port
  `Enigma/Classical.cs`. They provide:
  - Vigenère (shifted by one in the C++ tool);
  - Caesar;
  - Playfair over a 5 x 5 key square with one letter omitted;
  - dictionary attacks that try dictionary words as keys and keep the
    plaintexts a dictionary check accepts.
- The newer Horus library (`src/Horus/Classical`). It provides:
  - the `Alphabet` list/grid and its coordinate arithmetic;
  - Playfair over a grid of any size;
  - an Enigma machine built from rotors, a stator, a reflector and a
    plugboard;
  - the dictionary attacker and the `Hack` loop of every classical
    algorithm.

The model also covers:

- the list and array helpers these use (`Rotate`, `Move`, `MaxFactor`,
  `Subarray`, `Compare`, `Contains`, `ToBlock`, `IsString`);
- the integer HSL colour arithmetic of Goro's `HSLColor`;
- the ledger operations of Pluto's `PlutoBook`.

Each module follows one source file:

- `wrappers.dfy`: the exception kinds the code throws, `Result` and `Option`.
- `text.dfy`: character and string helpers (ASCII case, blanks removed,
  `IndexOf`, LINQ `Distinct`).
- `arith.dfy`: C# truncating division and remainder, divisibility and primes.
- `collections.dfy`: `GenericCollectionsExtensions`.
- `global_extensions.dfy`: `GlobalExtensions`.
- `alphabet.dfy`: `Alphabet` and `Dimensions`.
- `key_square.dfy`: the 5 x 5 key square that the C++ and C# Playfair share.
- `cpp_tool.dfy` and `cpp_hack.dfy`: `main.cpp`.
- `classical.dfy`: `Classical.cs`.
- `dictionary_attacker.dfy`: `DictionaryAttackerBase`.
- `horus_playfair.dfy`: `Playfair` together with `ClassicalAlgorithm`.
- `enigma_wheel.dfy`, `rotor.dfy`, `enigma_machine.dfy` and `plugboard.dfy`:
  the Enigma machine.
- `hsl_color.dfy`: `HSLColor`.
- `pluto_book.dfy`: `PlutoBook`.

The objects the source updates in place are Dafny classes whose methods
change their fields. These are `Alphabet`, `Rotor`, `EnigmaWheel`,
`EnigmaMachine`, `Plugboard`, `Playfair`, `DictionaryAttackerBase`,
`PlutoBook` and the static dictionaries of `Classical`. Every method is
proved against a specification function, and the properties of the
specification function are proved as lemmas. Loops in the source are loops
in the model, with invariants.

Exceptions are modelled as `Failure(e)` or `Some(e)` results. C++
undefined behaviour is the exception kind `UndefinedBehaviour`, so a model
of code that reads past a buffer says so instead of inventing a value.

`Classical.cs` calls two helpers whose definitions are not part of this
model, `Prepare()` and `ReplaceAt()`. The model assumes that `Prepare`
upper-cases ASCII letters and removes blanks, as the C++ tool does by hand,
and that `ReplaceAt(i, c)` writes `c` at position `i`.

`main.cpp` writes `test.length` and `dictionary[i].length` without
parentheses, which does not compile. The model reads each as the string's
length.

## Model

| member | source | states |
|---|---|---|
| Collections.Rotate | src/Core/Extensions/GenericCollectionsExtensions.cs:70-91 | Rotate by offset gives the left rotation `Rotated(list, offset)` (head moved to tail offset times, tail to head for a negative offset, run \|offset\| times); an empty list with a non-zero offset throws ArgumentOutOfRange |
| Collections.RotateAsWritten | src/Core/Extensions/GenericCollectionsExtensions.cs:84-90 | the negative branch as written, with the test `offset <= 0`, rotates by offset - 1: one step too many |
| Collections.RotateAsWrittenOffByOne | src/Core/Extensions/GenericCollectionsExtensions.cs:84-90 | on [1, 2, 3] with offset -1 the as-written loop gives [2, 3, 1], the rotation by -1 is [3, 1, 2] |
| Collections.RotatedInverse | src/Core/Extensions/GenericCollectionsExtensions.cs:70-91 | rotating back by the same offset restores the list |
| Collections.RotatedMultiset | src/Core/Extensions/GenericCollectionsExtensions.cs:70-91 | a rotation keeps the length and the multiset of items |
| Collections.RotatedDistinct | src/Core/Extensions/GenericCollectionsExtensions.cs:70-91 | a rotation of distinct items has distinct items |
| Collections.RotatedMembers | src/Core/Extensions/GenericCollectionsExtensions.cs:70-91 | a rotation holds exactly the items of the list |
| Collections.RotatedHeadToTail | src/Core/Extensions/GenericCollectionsExtensions.cs:76-78 | moving the head to the tail advances a rotation by one |
| Collections.RotatedTailToHead | src/Core/Extensions/GenericCollectionsExtensions.cs:86-89 | moving the tail to the head moves a rotation back by one |
| Collections.Move | src/Core/Extensions/GenericCollectionsExtensions.cs:14-29 | a bad oldIndex throws with no change; a bad newIndex throws after the item was removed; otherwise the result is `Moved(list, oldIndex, newIndex)` |
| Collections.MoveItem | src/Core/Extensions/GenericCollectionsExtensions.cs:37-45 | an item not in the list throws NullReferenceException with the list unchanged; otherwise its first occurrence is moved to newIndex, and a bad newIndex throws ArgumentOutOfRangeException with that occurrence already removed |
| Collections.MovedProperties | src/Core/Extensions/GenericCollectionsExtensions.cs:14-29 | Move keeps the length and the multiset of items, and the moved item ends at newIndex |
| Collections.MovedInverse | src/Core/Extensions/GenericCollectionsExtensions.cs:14-29 | moving the item back from newIndex to oldIndex restores the list |
| Collections.MovedPrefix | src/Core/Extensions/GenericCollectionsExtensions.cs:14-29 | moving an item forward to newIndex keeps everything before newIndex |
| Collections.MovedDistinct | src/Core/Extensions/GenericCollectionsExtensions.cs:14-29 | moving an item of a list without repeats leaves no repeats |
| GlobalExtensions.StripTwos | src/Core/Extensions/GlobalExtensions.cs:19 | the halving loop leaves n odd (ready for trial division from 3) or 2 (already the largest prime factor), without losing any odd prime factor |
| GlobalExtensions.MaxFactor | src/Core/Extensions/GlobalExtensions.cs:15-41 | for n >= 2 the result is the largest prime factor of n, with k as a 32-bit and n, k2, delta as 64-bit unsigned values and the early return on wrap-around; n < 2 is returned as is |
| GlobalExtensions.DivideLoop | src/Core/Extensions/GlobalExtensions.cs:26-29 | `n /= k` keeps the trial-division invariant and makes n smaller |
| GlobalExtensions.AdvanceLoop | src/Core/Extensions/GlobalExtensions.cs:30-36 | when k2 + delta wraps, n is already the largest prime factor; otherwise k2 and delta become the next odd square and gap |
| GlobalExtensions.LargestWhenSquareExceeds | src/Core/Extensions/GlobalExtensions.cs:24 | once k * k exceeds n, n is the largest prime factor of the original number |
| GlobalExtensions.MaxFactorOf124 | src/Core/Extensions/GlobalExtensions.cs:15-41 | MaxFactor(124) can only be 31, the unique largest prime factor of 124 |
| GlobalExtensions.Isqrt | src/Horus/Classical/Alphabet/AlphaMain.cs:103 | the integer square root: r * r <= n < (r + 1) * (r + 1) |
| GlobalExtensions.PerfectSquareRoot | src/Core/Extensions/GlobalExtensions.cs:72-76 | a number is a perfect square exactly when it is r * r, and then its root is r |
| GlobalExtensions.Subarray | src/Core/Extensions/GlobalExtensions.cs:81-92 | null array, negative start, negative length or start + length past the end (32-bit sum) throw; otherwise the result is the `length` items from start on |
| GlobalExtensions.AddInt32 | src/Core/Extensions/GlobalExtensions.cs:87 | the C# unchecked 32-bit sum start + length: the true sum when it fits, otherwise wrapped by 2^32, and always congruent to it |
| GlobalExtensions.SubarraySplit | src/Core/Extensions/GlobalExtensions.cs:81-92 | two adjacent sub-arrays concatenated are the sub-array spanning both |
| GlobalExtensions.Compare | src/Core/Extensions/GlobalExtensions.cs:255-265 | true exactly when the lengths are equal and the bytes are equal at every index |
| GlobalExtensions.Contains | src/Core/Extensions/GlobalExtensions.cs:273-280 | true exactly when some character of the string equals c |
| GlobalExtensions.ToBlock | src/Core/Extensions/GlobalExtensions.cs:210-219 | "" for an empty string; otherwise the same length, the first character upper-cased and the rest lower-cased |
| GlobalExtensions.ToBlockIdempotent | src/Core/Extensions/GlobalExtensions.cs:210-219 | block format applied twice is block format applied once |
| GlobalExtensions.ToBlockCaseInsensitive | src/Core/Extensions/GlobalExtensions.cs:210-219 | the block format of a string does not depend on the case of its letters |
| GlobalExtensions.IsString | src/Core/Extensions/GlobalExtensions.cs:49-53 | true exactly when the characters spell the string |
| GlobalExtensions.IsCharArray | src/Core/Extensions/GlobalExtensions.cs:61-65 | the same test with the arguments swapped, and it agrees with IsString |
| Alphabets.Equals | src/Horus/Classical/Alphabet/AlphaMain.cs:276-279 | dimensions are equal exactly when X and Y are equal |
| Alphabets.Limit | src/Horus/Classical/Alphabet/AlphaMain.cs:267-271 | `X %= max_x; Y %= max_y` with the C# remainder: a zero bound throws DivideByZero, a coordinate in range is kept, and -1 stays -1 |
| Alphabets.Wrap | src/Horus/Classical/Alphabet/AlphaMain.cs:267-271 | the wrap-around Limit is used for: every coordinate lands in 0..max-1, -1 becomes max - 1 |
| Alphabets.LimitWrapAgree | src/Horus/Classical/Alphabet/AlphaMain.cs:267-271 | Limit and the wrap-around agree on coordinates that are not negative and differ on -1 whenever the bound is above 1 |
| Alphabets.AddedAllAppends | src/Horus/Classical/Alphabet/AphaList.cs:11-20 | AddAll appends the characters new to the list, once each, in first-occurrence order |
| Alphabets.AddedAllDistinct | src/Horus/Classical/Alphabet/AphaList.cs:114-119 | adding keeps the characters distinct |
| Alphabets.RemovedDistinct | src/Horus/Classical/Alphabet/AphaList.cs:157-160 | in a list of distinct characters, removing c removes every c |
| Alphabets.RemovedAllExcept | src/Horus/Classical/Alphabet/AphaList.cs:44-52 | on distinct characters RemoveAll keeps exactly the characters not in the argument, in order |
| Alphabets.Alphabet.constructor | src/Horus/Classical/Alphabet/AlphaMain.cs:20-23 | a new alphabet is empty, with zero dimensions |
| Alphabets.Alphabet.FromString | src/Horus/Classical/Alphabet/AlphaMain.cs:29-34 | Alphabet(characters) holds the characters with repeats dropped, in first-occurrence order |
| Alphabets.Alphabet.IndexOf | src/Horus/Classical/Alphabet/AphaList.cs:83-86 | the first index of the character, and -1 exactly when Contains is false |
| Alphabets.Alphabet.Add | src/Horus/Classical/Alphabet/AphaList.cs:114-119 | false and no change when the character is present; otherwise appended and true; distinct characters stay distinct |
| Alphabets.Alphabet.Insert | src/Horus/Classical/Alphabet/AphaList.cs:95-99 | nothing when the character is present; otherwise inserted at index, ArgumentOutOfRange outside 0..Count |
| Alphabets.Alphabet.Remove | src/Horus/Classical/Alphabet/AphaList.cs:157-160 | true and the first occurrence deleted when present, false and no change otherwise |
| Alphabets.Alphabet.RemoveAt | src/Horus/Classical/Alphabet/AphaList.cs:106-109 | the character at index deleted; ArgumentOutOfRange outside the list |
| Alphabets.Alphabet.Clear | src/Horus/Classical/Alphabet/AphaList.cs:131-134 | no characters are left |
| Alphabets.Alphabet.Get | src/Horus/Classical/Alphabet/AphaList.cs:69-71 | the character at index; ArgumentOutOfRange outside the list |
| Alphabets.Alphabet.Set | src/Horus/Classical/Alphabet/AphaList.cs:72 | the character at index replaced, with no check for a repeat elsewhere |
| Alphabets.Alphabet.AddAll | src/Horus/Classical/Alphabet/AphaList.cs:11-20 | every character added in turn; returns the number actually added, which is how much the list grew |
| Alphabets.Alphabet.RemoveAll | src/Horus/Classical/Alphabet/AphaList.cs:44-52 | every character removed in turn; returns the number actually removed, which is how much the list shrank |
| Alphabets.Alphabet.Rotate | src/Horus/Classical/Alphabet/AlphaMain.cs:70-73 | List.Rotate as written on the characters: rotated by offset for offset >= 0 and by offset - 1 for a negative offset; an empty alphabet throws ArgumentOutOfRange for a non-zero offset; dimensions kept |
| Alphabets.Alphabet.Move | src/Horus/Classical/Alphabet/AlphaMain.cs:88-91 | the character moved to newIndex; a character not in the alphabet throws NullReferenceException; a bad newIndex throws ArgumentOutOfRangeException with the character already removed |
| Alphabets.Alphabet.AutoDimensions | src/Horus/Classical/Alphabet/AlphaMain.cs:98-111 | root x root for a perfect-square count, otherwise largest prime factor x count / factor; either way X * Y == Count |
| Alphabets.Alphabet.WrapChar | src/Horus/Classical/Alphabet/AlphaMain.cs:153-165 | the character steps places on, wrapping around (32-bit sum); a character not in the alphabet throws InvalidOperation |
| Alphabets.Wrapped | src/Horus/Classical/Alphabet/AlphaMain.cs:153-165 | the character at (IndexOf(c) + steps) mod Count |
| Alphabets.WrapInverse | src/Horus/Classical/Alphabet/AlphaMain.cs:153-165 | wrapping by steps and then by -steps gives the character back, in an alphabet of distinct characters |
| Alphabets.DimensionsOf | src/Horus/Classical/Alphabet/AlphaMain.cs:118-130 | (index % X, index / X); an absent character throws NullReferenceException, X == 0 throws DivideByZero |
| Alphabets.GetDimensionalIndex | src/Horus/Classical/Alphabet/AlphaMain.cs:138-144 | X * y + x, after refusing x > X and y >= Y with InvalidOperation |
| Alphabets.CharAt | src/Horus/Classical/Alphabet/AlphaMain.cs:194-201 | the character at GetDimensionalIndex(x, y); an index outside the list throws ArgumentOutOfRange |
| Alphabets.DimensionsRoundTrip | src/Horus/Classical/Alphabet/AlphaMain.cs:118-144 | for an alphabet that fits its grid, GetDimensionalIndex of DimensionsOf(c) is IndexOf(c), and the indexer reads c back |
| KeySquare.SAlphaAt | Enigma/_dump/main.cpp:449 | the leftover alphabet "ABCDEFGHIJKLMNOPRQSTUVWXYZ" is the alphabet with Q and R traded |
| KeySquare.SquareFacts | Enigma/_dump/main.cpp:447-463 | a key without repeats followed by the letters it leaves gives at least 25 distinct letters |
| KeySquare.SquareCovers | Enigma/_dump/main.cpp:447-463 | a key of distinct capitals without the omitted capital gives exactly the 25 capitals other than the omitted one |
| KeySquare.SAlphaLetters | Enigma/_dump/main.cpp:449 | the leftover alphabet holds exactly the 26 capitals |
| KeySquare.FillGrid | Enigma/_dump/main.cpp:464-474 | the row-major fill: cell (row, col) holds letter 5 * row + col |
| KeySquare.Locate | Enigma/_dump/main.cpp:489-508 | the cell the search settles on holds the letter, and there is none exactly when the letter is not in the grid |
| KeySquare.LocatePair | Enigma/_dump/main.cpp:489-508 | every cell is compared with both letters and the last match wins; a letter matching no cell keeps its starting cell |
| KeySquare.EncryptCells | Enigma/_dump/main.cpp:511-539 | the enciphering rules: rectangle swaps columns, same column moves down, same row moves right, same cell moves down, 5 wraps to 0; the cells stay in the grid |
| KeySquare.DecryptCells | Enigma/_dump/main.cpp:632-660 | the deciphering rules with the moves reversed, -1 wrapping to 4; the cells stay in the grid |
| KeySquare.CellsInverse | Enigma/_dump/main.cpp:511-539 | the deciphering rules undo the enciphering rules and the other way round |
| KeySquare.PairInverse | Enigma/_dump/main.cpp:483-543 | a digraph of grid letters enciphers to grid letters, and deciphering them gives the digraph back (either direction first) |
| KeySquare.CryptPair | Enigma/_dump/main.cpp:486-542 | one digraph through the grid: both cells found, the rules applied and the two letters read |
| KeySquare.Crypt | Enigma/_dump/main.cpp:483-543 | a text of even length through the square digraph by digraph; on success the output has the text's length |
| KeySquare.CryptGrid | Enigma/_dump/main.cpp:483-543 | the digraph loop gives `Crypt` of the text; a digraph that cannot be placed reads an uninitialised cell |
| KeySquare.CryptRoundTrip | Enigma/_dump/main.cpp:483-543 | deciphering what was enciphered with the same square gives the text back when every letter is in the grid, and the other way round |
| KeySquare.CryptSucceedsInGrid | Enigma/_dump/main.cpp:489-508 | without a fallback cell a text goes through only if all its letters are in the grid |
| KeySquare.CryptTotal | Enigma/Classical.cs:98-121 | with the zero-initialised fallback cell every text of even length goes through |
| CppTool.LetterValue | Enigma/_dump/main.cpp:698-705 | for a capital the unique i in 0..25 with letters[i] == letter; any other character runs the scan off the table |
| CppTool.ToUpper | Enigma/_dump/main.cpp:379-388 | toupper on every character, the length kept |
| CppTool.RemoveSpace | Enigma/_dump/main.cpp:671-697 | the result has no blank and keeps every other character in order |
| CppTool.DropBlank | Enigma/_dump/main.cpp:675-688 | deleting one blank does not change the text without blanks |
| CppTool.EncShift | Enigma/_dump/main.cpp:401-403 | key + plain + 1 less 26 above 25 is (k + i + 1) mod 26, in 0..25 |
| CppTool.DecShift | Enigma/_dump/main.cpp:421-423 | cipher - key - 1 plus 26 below 0 is (c - k - 1) mod 26, in 0..25 |
| CppTool.ShiftInverse | Enigma/_dump/main.cpp:401-424 | the decipher shift undoes the encipher shift and the other way round |
| CppTool.VigenereRoundTrip | Enigma/_dump/main.cpp:389-428 | deciphering with the same key what was enciphered gives back the normalised plaintext, and the other way round |
| CppTool.VigenereText | Enigma/_dump/main.cpp:396-406 | the shifted text has the input's length and consists of capitals |
| CppTool.KeyIndexerReset | Enigma/_dump/main.cpp:398-400 | with the reset at the end of the key, round i uses key letter i mod \|key\| |
| CppTool.VigenereLoop | Enigma/_dump/main.cpp:396-406 | the loop with bound i < size gives each letter shifted by its key letter; a non-letter fails the letter scan |
| CppTool.VigenereLoopAsWritten | Enigma/_dump/main.cpp:396 | with the bound i <= size the last round reads the terminating NUL, so every call ends in undefined behaviour |
| CppTool.VigenereHelloKey | Enigma/_dump/main.cpp:389-408 | the bounded loop enciphers "HELLO" with "KEY" to "SJKWT" |
| CppTool.VinegereCypher | Enigma/_dump/main.cpp:389-408 | vinegere_cypher with the loop bound corrected: the normalised text shifted forward letter by letter |
| CppTool.VinegereDecypher | Enigma/_dump/main.cpp:409-428 | vinegere_decypher with the loop bound corrected: the normalised text shifted back letter by letter |
| CppTool.CaesarShiftInverse | Enigma/_dump/main.cpp:73-75 | shifting back by 26 - s undoes a shift back by s |
| CppTool.CString | Enigma/_dump/main.cpp:57-59 | the length scan stops at the first NUL: the result is a NUL-free prefix followed by NUL or the end |
| CppTool.CaesarShift | Enigma/_dump/main.cpp:63-82 | every letter moved back the same number of places: same length, still letters and blanks, the blanks in the same places |
| CppTool.CaesarFigure | Enigma/_dump/main.cpp:66-80 | a capital or a blank yields a figure and nothing else does; the figure is the letter moved back key places, wrapping below A, or the blank |
| CppTool.CaesarCandidate | Enigma/_dump/main.cpp:63-82 | each capital moved back key places, a blank kept, anything else sends the letter scan off the table |
| CppTool.CeaserHack | Enigma/_dump/main.cpp:49-87 | the length up to the first NUL, then the candidate text for each key 0..25 |
| CppTool.MarkRepeats | Enigma/_dump/main.cpp:435-446 | every character equal to an earlier one becomes a blank |
| CppTool.MarkedMember | Enigma/_dump/main.cpp:435-446 | a character other than a blank is in the marked key exactly when it is in the key |
| CppTool.Occurs | Enigma/_dump/main.cpp:437-443 | the inner search loop: true exactly when c is among the first n characters |
| CppTool.MarkedDedup | Enigma/_dump/main.cpp:435-447 | marking repeats and removing blanks keeps the first occurrence of each character |
| CppTool.ShortenKey | Enigma/_dump/main.cpp:433-447 | the shortened key: the upper-cased key's characters at their first occurrence, without blanks |
| CppTool.ShortKey | Enigma/_dump/main.cpp:433-447 | the shortened key has no repeats and no blank, and holds exactly the non-blank characters of the upper-cased key |
| CppTool.BlankOutLetters | Enigma/_dump/main.cpp:450-460 | every letter of the alphabet that is in the key or is the omitted letter becomes a blank |
| CppTool.ShortenAlphabet | Enigma/_dump/main.cpp:449-461 | the alphabet without the key letters and the omitted letter |
| CppTool.SquareOfCovers | Enigma/_dump/main.cpp:433-474 | a key of letters and blanks without the omitted capital fills the grid with every capital but the omitted one |
| CppTool.SquareOf | Enigma/_dump/main.cpp:447-474 | the grid letters: 25 of them, none repeated, none a blank or a small letter |
| CppTool.BuildGrid | Enigma/_dump/main.cpp:431-474 | the grid holds the deduplicated key followed by the leftover alphabet, row-major |
| CppTool.PrepareText | Enigma/_dump/main.cpp:477-480 | the text upper-cased, blanks removed and padded with 'Z' to even length |
| CppTool.Prepared | Enigma/_dump/main.cpp:477-480 | the upper-cased text without blanks, with one 'Z' more exactly when needed to make the length even |
| CppTool.PreparedGridText | Enigma/_dump/main.cpp:477-480 | a text of grid letters of even length is left alone by the preparation, so a ciphertext can be fed back in |
| CppTool.PlayfairCypher | Enigma/_dump/main.cpp:429-549 | playfair_cypher: the prepared text through the square that omits 'Q' |
| CppTool.PlayfairDecypher | Enigma/_dump/main.cpp:550-670 | playfair_decypher: the prepared text back through the square that omits the given letter |
| CppTool.PlayfairRoundTrip | Enigma/_dump/main.cpp:429-670 | with the same key and omitted letter, decypher undoes cypher and the other way round, and the output length is the padded length |
| CppHack.LoadDictionary | Enigma/_dump/main.cpp:88-104 | each line upper-cased with blanks removed, in file order; more lines than slots write past the array |
| CppHack.DictCheckAsWritten | Enigma/_dump/main.cpp:152-173 | dict_check as written, the inner loop incrementing i instead of x |
| CppHack.ScanAcceptsOnlyUnguarded | Enigma/_dump/main.cpp:154-170 | as written, dict_check accepts only because some entry failed the guard, never because an entry matched |
| CppHack.DictCheckAcceptsZZZ | Enigma/_dump/main.cpp:156-168 | with the dictionary ["A", "", ...] the as-written check accepts "ZZZ", which starts with no word of it |
| CppHack.DictCheck | Enigma/_dump/main.cpp:152-173 | the intended check: true exactly when the input starts with a dictionary word of at least two letters |
| CppHack.KnownWordExtend | Enigma/_dump/main.cpp:152-173 | a text that starts with a known word stays known whatever follows it |
| CppHack.LogicCheckAsWritten | Enigma/_dump/main.cpp:105-151 | after a leading 'A' or 'I' the buffer handed to dict_check is unterminated: undefined behaviour |
| CppHack.LogicCheck | Enigma/_dump/main.cpp:105-151 | the intended check: the text after "AN", after "A", after "I", or the text itself starts with a known word |
| CppHack.PlausibleArticles | Enigma/_dump/main.cpp:111-149 | a known word passes on its own and after "A", "AN" or "I" |
| CppHack.VinegereHackAsWritten | Enigma/_dump/main.cpp:174-194 | as written, the first candidate key's decipherment reads past the text, so the hack ends in undefined behaviour |
| CppHack.VinegereHack | Enigma/_dump/main.cpp:174-194 | with the bounded decipherment and the intended logic check: the first 10000 entries tried as keys in order; the result is `Reports` of the normalised text |
| CppHack.ReportsExactly | Enigma/_dump/main.cpp:182-191 | the hack reports exactly the candidate keys whose plaintext is plausible, each with that plaintext |
| CppHack.ReportsSucceed | Enigma/_dump/main.cpp:182-191 | the hack gets through exactly when every candidate key deciphers the text |
| CppHack.ReportsFail | Enigma/_dump/main.cpp:182-191 | once a key cannot be read the hack stays failed |
| Classical.PreparedFixed | Enigma/Classical.cs:23-24 | a prepared text is left alone by upper-casing and by preparing again |
| Classical.Value | Enigma/Classical.cs:541-557 | the index in "A..Z" for a capital and 0 for any other character, always in 0..25 |
| Classical.GetLetterValue | Enigma/Classical.cs:541-557 | the scan of capital_letters, with the overrun caught and mapped to 0, gives `Value` |
| Classical.Shifted | Enigma/Classical.cs:32-34 | the adjusted sum or difference is the shifted value mod 26 |
| Classical.ShiftedInverse | Enigma/Classical.cs:32-34 | shifting back by the same key undoes a shift, either way round |
| Classical.Adjust | Enigma/Classical.cs:195-197 | the adjustment loops keep the value within 0..25 and compute the shift mod 26 |
| Classical.VigenereRun | Enigma/Classical.cs:21-38 | the letter loop, with the key index wrapping at the key's length, gives letter i shifted by key letter i mod \|key\| |
| Classical.VigenereText | Enigma/Classical.cs:21-38 | the shifted text has the prepared text's length and consists of capitals |
| Classical.VigenereCipher | Enigma/Classical.cs:19-39 | the prepared text shifted forward by the prepared key, all capitals of the prepared length |
| Classical.VigenereDecipher | Enigma/Classical.cs:182-202 | the prepared text shifted back by the prepared key |
| Classical.VigenereRoundTrip | Enigma/Classical.cs:19-202 | deciphering what was enciphered with the same key gives the prepared plaintext back, and the other way round |
| Classical.CaesarRun | Enigma/Classical.cs:165-176 | each position of a copy of the input overwritten in turn by its shifted capital |
| Classical.CaesarText | Enigma/Classical.cs:165-176 | every character becomes a capital; the length is kept |
| Classical.CeaserCipher | Enigma/Classical.cs:163-177 | every character replaced by the capital of its value plus the key's value, mod 26 |
| Classical.CeaserDecipher | Enigma/Classical.cs:328-342 | every character replaced by the capital of its value minus the key's value, mod 26 |
| Classical.CaesarRoundTrip | Enigma/Classical.cs:163-342 | for a text of capitals, CeaserDecipher(CeaserCipher(t, k), k) == t and the other way round |
| Classical.CaesarIsVigenere | Enigma/Classical.cs:163-177 | on a prepared text Caesar with a key letter is Vigenère with that one-letter key |
| Classical.KeyOverrunBlank | Enigma/Classical.cs:47 | the marking loop reads past the prepared key exactly when the key has a blank and two or more characters |
| Classical.MarkKeyAsWritten | Enigma/Classical.cs:47-56 | the marking loop as written throws IndexOutOfRange on a key that overruns and otherwise marks repeats with blanks |
| Classical.MarkedPrepared | Enigma/Classical.cs:47-58 | marking and preparing keeps each letter's first occurrence |
| Classical.KeyGridFrom | Enigma/Classical.cs:58-87 | the square: key prepared again, leftover alphabet from "…OPRQS…" without key letters and omit, first 25 letters row-major |
| Classical.KeySquareOf | Enigma/Classical.cs:58-87 | the square of any key: 25 letters, none repeated |
| Classical.EmptyKeySquare | Enigma/Classical.cs:58-87 | with the empty key the square is the leftover alphabet without the omitted letter, cut to 25 |
| Classical.PadText | Enigma/Classical.cs:90-92 | the prepared text padded with 'Z' to even length |
| Classical.CryptText | Enigma/Classical.cs:95-156 | the digraph loop with the zero-initialised fallback cell gives `PlayfairText` |
| Classical.PlayfairText | Enigma/Classical.cs:95-156 | the output has the length of the padded prepared text |
| Classical.PlayfairRunAsWritten | Enigma/Classical.cs:41-161 | the shared Playfair body as written |
| Classical.PlayfairRun | Enigma/Classical.cs:41-161 | the same body with the marking loop bounded by the prepared key |
| Classical.PlayfairCipherAsWritten | Enigma/Classical.cs:41-161 | PlayfairCipher as written: the omitted letter used as given |
| Classical.PlayfairDecipherAsWritten | Enigma/Classical.cs:204-326 | PlayfairDecipher as written: a small omitted letter upper-cased first |
| Classical.UpperOmit | Enigma/Classical.cs:206 | a small letter becomes the capital at its index; any other character is kept |
| Classical.PlayfairCipher | Enigma/Classical.cs:41-161 | the corrected cipher: the marking loop bounded and the omitted letter upper-cased |
| Classical.PlayfairDecipher | Enigma/Classical.cs:204-326 | the corrected decipher: the marking loop bounded |
| Classical.PlayfairBlankKey | Enigma/Classical.cs:47-54 | as written, "ATTACK" enciphered with the key "PLAY FAIR" throws IndexOutOfRange |
| Classical.PreparedKeyAsWritten | Enigma/Classical.cs:47-54 | for a key without blanks the as-written and the corrected marking loop agree |
| Classical.PlayfairRoundTrip | Enigma/Classical.cs:124-152 | with the same key and omitted letter, PlayfairDecipher undoes PlayfairCipher on a text whose padded letters are in the square, and the other way round |
| Classical.PlayfairLetters | Enigma/Classical.cs:60-73 | a text of letters and blanks avoiding the omitted capital, under such a key, has all its padded letters in the square |
| Classical.SquareWithLowerQ | Enigma/Classical.cs:68 | a small 'q' matches no capital, so the whole leftover alphabet is kept and Z falls off the square |
| Classical.SquareWithoutQ | Enigma/Classical.cs:58-87 | the square of the empty key without Q holds G, I, R and T at cells 6, 8, 16 and 18 |
| Classical.PlayfairOmitCase | Enigma/Classical.cs:206 | as written, "GS" enciphered with the empty key and 'q' is "IR", and deciphering "IR" with 'q' gives "GT" |
| Classical.Replace | Enigma/Classical.cs:526 | string.Replace(w, ""): the occurrences met scanning left to right deleted; the result is shorter by a multiple of \|w\| |
| Classical.CheckSound | Enigma/Classical.cs:505-533 | a non-empty text passes only if some word of three or more letters occurs in it |
| Classical.CheckFirstMatch | Enigma/Classical.cs:511-529 | the first word of three or more letters that occurs decides: pass when fewer than three characters are left or the rest passes |
| Classical.CheckRefusesWord | Enigma/Classical.cs:511-529 | the check can refuse a text that is itself a dictionary word when a shorter word listed first is removed from it |
| Classical.CheckWords | Enigma/Classical.cs:505-533 | empty input passes; the word loop and its recursion give `Check`; the depth is never consulted |
| Classical.AttackExactly | Enigma/Classical.cs:359-376 | a possibility is reported exactly when its key is in the key dictionary, its output is that key's decipherment and the output passes |
| Classical.AttackSound | Enigma/Classical.cs:359-376 | every reported possibility has a dictionary key whose decipherment passes |
| Classical.AttackComplete | Enigma/Classical.cs:359-376 | every dictionary key whose decipherment passes is reported |
| Classical.AttackAllExactly | Enigma/Classical.cs:384-393 | the full attack reports a possibility exactly when some omitted capital reports it |
| Classical.AttackAllSound | Enigma/Classical.cs:384-393 | what the full attack reports, some omitted capital reports |
| Classical.AttackAllComplete | Enigma/Classical.cs:384-393 | what any omitted capital reports, the full attack reports |
| Classical.PrepareLines | Enigma/Classical.cs:472-488 | every line of the stream prepared, in stream order |
| Classical.PrepareAll | Enigma/Classical.cs:472-488 | every line prepared: as many lines, none with a blank |
| Classical.Describe | Enigma/Classical.cs:590-594 | "Key: " and the key, " Output: " and the output: the key and output can be read back at their places |
| Classical.Dictionaries.constructor | Enigma/Classical.cs:346-349 | no dictionary is loaded |
| Classical.Dictionaries.LoadDictionary | Enigma/Classical.cs:465-491 | both lists replaced; each prepared line goes to the key list, the language list or both by type; loaded is set |
| Classical.Dictionaries.CheckDictionary | Enigma/Classical.cs:505-533 | the word check on the language dictionary |
| Classical.Dictionaries.PlayfairHackOmit | Enigma/Classical.cs:359-376 | "Dictionary not loaded" before loading; otherwise the keys whose decipherment of the prepared input passes, in key order |
| Classical.Dictionaries.PlayfairHack | Enigma/Classical.cs:384-393 | the attack for each capital as the omitted letter, appended in alphabetical order |
| DictionaryAttack.UntilEmpty | src/Horus/Classical/DictionaryAttackerBase.cs:44-47 | the lines read before the end of the stream or the first empty line, none of them empty |
| DictionaryAttack.DictionaryAttacker.constructor | src/Horus/Classical/DictionaryAttackerBase.cs:11-16 | nothing loaded, match length 3 |
| DictionaryAttack.DictionaryAttacker.LoadDictionary | src/Horus/Classical/DictionaryAttackerBase.cs:37-61 | both lists replaced; each line before the first empty one goes, unchanged, to the key list, the language list or both; loaded is set |
| DictionaryAttack.DictionaryAttacker.CheckDictionary | src/Horus/Classical/DictionaryAttackerBase.cs:69-93 | the word check on the language dictionary; empty input passes, no matching word fails |
| HorusPlayfair.KeyTableShape | src/Horus/Classical/Algorithms/Playfair.cs:28-33 | for distinct key characters of the alphabet the key table is a rearrangement of the alphabet that starts with the distinct key characters |
| HorusPlayfair.MoveKeyStep | src/Horus/Classical/Algorithms/Playfair.cs:30-33 | moving the next key character to the next index keeps the table a rearrangement of the alphabet that starts with the key so far and that character |
| HorusPlayfair.MoveKey | src/Horus/Classical/Algorithms/Playfair.cs:30-33 | each distinct key character moved in turn to the next index gives `KeyTable` |
| HorusPlayfair.Padded | src/Horus/Classical/Algorithms/Playfair.cs:35 | odd input gets the alphabet's last character and even length; an empty alphabet throws ArgumentOutOfRange |
| HorusPlayfair.Digraph | src/Horus/Classical/Algorithms/Playfair.cs:42-80 | one digraph: both located, the new positions found and read back |
| HorusPlayfair.Digraphs | src/Horus/Classical/Algorithms/Playfair.cs:40-81 | the ciphering loop over an even text: the output has the input's length, and the first failing digraph decides the failure |
| HorusPlayfair.PositionsRoundTrip | src/Horus/Classical/Algorithms/Playfair.cs:45-76 | for two cells of the grid the forward substitution gives cells of the grid and the backward substitution returns them |
| HorusPlayfair.DigraphRoundTrip | src/Horus/Classical/Algorithms/Playfair.cs:42-80 | enciphering a digraph of table characters succeeds and deciphering the result gives it back |
| HorusPlayfair.DigraphsRoundTrip | src/Horus/Classical/Algorithms/Playfair.cs:40-81 | a text of table characters of even length enciphers, and deciphers back to itself |
| HorusPlayfair.RunRoundTrip | src/Horus/Classical/Algorithms/Playfair.cs:21-84 | Run(Run(x, true), false) is the padded x when the alphabet is distinct and fills its grid and key and input use its characters |
| HorusPlayfair.LimitBreaksDecrypt | src/Horus/Classical/Algorithms/Playfair.cs:75-76 | with Limit as written, alphabet ABCD on a 2 x 2 grid and the empty key: AB enciphers to BA, and deciphering BA reads column -1 and fails, while the wrap-around gives AB |
| HorusPlayfair.AbcdForward | src/Horus/Classical/Algorithms/Playfair.cs:69-76 | on ABCD in a 2 x 2 grid the digraph AB enciphers to BA |
| HorusPlayfair.AbcdBackFails | src/Horus/Classical/Algorithms/Playfair.cs:75-76 | with Limit as written, deciphering BA fails with ArgumentOutOfRange |
| HorusPlayfair.AbcdBackWrapped | src/Horus/Classical/Algorithms/Playfair.cs:75-76 | with the wrap-around, deciphering BA gives AB |
| HorusPlayfair.LocatedNonNegative | src/Horus/Classical/Alphabet/AlphaMain.cs:118-130 | a letter located in a grid of non-negative width has non-negative coordinates |
| HorusPlayfair.LimitedAgree | src/Horus/Classical/Algorithms/Playfair.cs:75-76 | on a non-negative point Limit as written and the wrap-around agree |
| HorusPlayfair.DigraphForwardAgrees | src/Horus/Classical/Algorithms/Playfair.cs:42-80 | enciphering a digraph with Limit as written gives what the wrap-around gives |
| HorusPlayfair.DigraphsForwardAgree | src/Horus/Classical/Algorithms/Playfair.cs:40-81 | enciphering a text with Limit as written gives what the wrap-around gives |
| HorusPlayfair.RunForwardAgrees | src/Horus/Classical/Algorithms/Playfair.cs:21-84 | Run(x, true) as written equals the wrap-around version: only deciphering meets the flaw |
| HorusPlayfair.Playfair.constructor | src/Horus/Classical/Algorithms/Playfair.cs:17-18 | the cipher on the alphabet with the key, orientation Horizontal |
| HorusPlayfair.Playfair.Run | src/Horus/Classical/Algorithms/Playfair.cs:21-84 | a fresh key table, the input padded and each digraph ciphered through Limit as written: the result is `RunSpec` with Limit |
| HorusPlayfair.Playfair.Cipher | src/Horus/Classical/Algorithms/Playfair.cs:40-81 | the ciphering loop gives `Digraphs` of the padded text, through Limit as written |
| HorusPlayfair.Playfair.CipherStep | src/Horus/Classical/Algorithms/Playfair.cs:42-80 | one pass extends the output by the next digraph (through Limit as written); a failing digraph is the failure of the whole text |
| HorusPlayfair.Playfair.Substitute | src/Horus/Classical/Algorithms/Playfair.cs:42-80 | rectangle corners exchange X; same column moves Y by the multiplier, same row X; an identical pair shifts by the orientation and both outputs are that cell; then Limit as written, which leaves -1 at -1 |
| HorusPlayfair.Playfair.Encrypt | src/Horus/Classical/ClassicalAlgorithm.cs:28-31 | Encrypt(x) is Run(x, true) as written, which for non-negative dimensions equals the wrap-around version; on a full distinct grid the corrected decipherment takes it back to the padded input |
| HorusPlayfair.Playfair.Decrypt | src/Horus/Classical/ClassicalAlgorithm.cs:38-41 | Decrypt(x) is Run(x, false) through Limit as written |
| HorusPlayfair.Playfair.Hack | src/Horus/Classical/ClassicalAlgorithm.cs:54-82 | InvalidOperation before a dictionary is loaded; otherwise the keys whose decipherment (through Limit as written) passes, in key order; the key is restored either way |
| HorusPlayfair.HackWithFails | src/Horus/Classical/ClassicalAlgorithm.cs:62-71 | the attack fails exactly when some key's decipherment fails |
| HorusPlayfair.HackWithSound | src/Horus/Classical/ClassicalAlgorithm.cs:62-71 | what a successful attack reports comes from a dictionary key whose decipherment passes |
| HorusPlayfair.HackWithComplete | src/Horus/Classical/ClassicalAlgorithm.cs:62-71 | a successful attack reports every dictionary key whose decipherment passes |
| EnigmaWheels.Path | src/Horus/Classical/Algorithms/EnigmaMachine/EnigmaWheel.cs:93-105 | forwards Indexing.IndexOf(Wiring[pin]), backwards Wiring.IndexOf(Indexing[pin]); a pin outside the list throws |
| EnigmaWheels.PathInverse | src/Horus/Classical/Algorithms/EnigmaMachine/EnigmaWheel.cs:93-105 | on a wheel whose two lists arrange the same distinct letters, backward after forward is the identity on pins, and forward after backward |
| EnigmaWheels.PairedInvolution | src/Horus/Classical/Algorithms/EnigmaMachine/EnigmaWheel.cs:93-105 | through a wheel whose wiring pairs its letters, the forward path taken twice returns to the pin |
| EnigmaWheels.ReflectStep | src/Horus/Classical/Algorithms/EnigmaMachine/EnigmaWheel.cs:61-82 | one pass: a letter already wired to maps back to its partner, any other takes the first letter of the copy not dealt with |
| EnigmaWheels.FirstFresh | src/Horus/Classical/Algorithms/EnigmaMachine/EnigmaWheel.cs:70-76 | a letter of the copy from j on that was not dealt with; failure (ArgumentOutOfRange) exactly when every letter from j on was dealt with |
| EnigmaWheels.Reflected | src/Horus/Classical/Algorithms/EnigmaMachine/EnigmaWheel.cs:61-82 | the loop over the first n letters gives `Reflecting` |
| EnigmaWheels.ReflectPass | src/Horus/Classical/Algorithms/EnigmaMachine/EnigmaWheel.cs:63-81 | one pass of the loop gives `ReflectStep` |
| EnigmaWheels.ReflectPairs | src/Horus/Classical/Algorithms/EnigmaMachine/EnigmaWheel.cs:52-84 | when Reflect completes on distinct letters the new wiring pairs them: each wired pair is wired both ways, no letter twice |
| EnigmaWheels.ReflectSelfMap | src/Horus/Classical/Algorithms/EnigmaMachine/EnigmaWheel.cs:49-51 | as the documentation warns, Reflect on index AB and wiring AB wires each letter to itself |
| EnigmaWheels.EnigmaWheel.constructor | src/Horus/Classical/Algorithms/EnigmaMachine/EnigmaWheel.cs:42-46 | indexing and wiring become alphabets, repeats dropped |
| EnigmaWheels.EnigmaWheel.Reflect | src/Horus/Classical/Algorithms/EnigmaMachine/EnigmaWheel.cs:52-84 | the wiring rebuilt pass by pass as `Reflecting` says; an exception leaves it as far as it got |
| EnigmaWheels.FindFresh | src/Horus/Classical/Algorithms/EnigmaMachine/EnigmaWheel.cs:70-76 | the do-while finds the first letter of the copy not dealt with, or throws past its end |
| Rotors.TurnOverAt | src/Horus/Classical/Algorithms/EnigmaMachine/Rotor.cs:141-144 | true exactly when Indexing[0] is a turnover letter; empty etching throws ArgumentOutOfRange, no turnover letters NullReference |
| Rotors.TurnedBy | src/Horus/Classical/Algorithms/EnigmaMachine/Rotor.cs:106-121 | both lists rotated by the same number of places; an armed flag fires the notch and is cleared; an unarmed flag is armed when a turnover letter reaches the window |
| Rotors.Turned | src/Horus/Classical/Algorithms/EnigmaMachine/Rotor.cs:106-121 | Rotate as written through List.Rotate: forward turns both lists one place, backward two places back (List.Rotate(-1) goes one place too far) |
| Rotors.TurnedCorrected | src/Horus/Classical/Algorithms/EnigmaMachine/Rotor.cs:106-121 | with the corrected List.Rotate both lists turn by exactly +1/-1 |
| Rotors.TurnedSound | src/Horus/Classical/Algorithms/EnigmaMachine/Rotor.cs:106-110 | rotating a sound rotor never throws and keeps its two lists aligned arrangements of the same letters |
| Rotors.RotatedSound | src/Horus/Classical/Algorithms/EnigmaMachine/Rotor.cs:106-110 | turning both lists by the same offset keeps a sound rotor sound |
| Rotors.ForwardThenBack | src/Horus/Classical/Algorithms/EnigmaMachine/Rotor.cs:106-110 | one place forward and then two back is one place back |
| Rotors.TurnBack | src/Horus/Classical/Algorithms/EnigmaMachine/Rotor.cs:106-110 | as written, rotating forward and then back leaves both lists one place back, so with two letters or more the window no longer shows the letter it started with |
| Rotors.TurnBackCorrected | src/Horus/Classical/Algorithms/EnigmaMachine/Rotor.cs:106-110 | with the corrected List.Rotate, rotating back undoes rotating forward on both lists |
| Rotors.NotchOnNextStep | src/Horus/Classical/Algorithms/EnigmaMachine/Rotor.cs:112-120 | the notch fires on the rotation after the one that brings a turnover letter into the window, and that rotation clears the flag |
| Rotors.Realigned | src/Horus/Classical/Algorithms/EnigmaMachine/Rotor.cs:128-134 | both lists rotated by List.Rotate as written by the window letter's index; the notch flag and turnover letters unchanged, so no notch is raised |
| Rotors.RealignedMissing | src/Horus/Classical/Algorithms/EnigmaMachine/Rotor.cs:128-134 | a window letter outside the etching has index -1, which List.Rotate as written turns two places back: with three distinct letters or more the window changes |
| Rotors.RealignedWindow | src/Horus/Classical/Algorithms/EnigmaMachine/Rotor.cs:128-134 | after Reset(w) for a letter w of the etching the window shows w and the rotor stays sound |
| Rotors.Rotor.constructor | src/Horus/Classical/Algorithms/EnigmaMachine/Rotor.cs:22-73 | etching and wiring deduplicated, turnover letters kept, flag clear |
| Rotors.Rotor.Plain | src/Horus/Classical/Algorithms/EnigmaMachine/Rotor.cs:22-73 | a rotor without turnover letters |
| Rotors.Rotor.Window | src/Horus/Classical/Algorithms/EnigmaMachine/Rotor.cs:96 | Indexing[0]; an empty etching throws ArgumentOutOfRange |
| Rotors.Rotor.IsTurnOver | src/Horus/Classical/Algorithms/EnigmaMachine/Rotor.cs:141-144 | as `TurnOverAt` of the rotor's state |
| Rotors.Rotor.Rotate | src/Horus/Classical/Algorithms/EnigmaMachine/Rotor.cs:106-121 | the new state, the notch event and the exception are those of `Turned`, through List.Rotate as written |
| Rotors.Rotor.Reset | src/Horus/Classical/Algorithms/EnigmaMachine/Rotor.cs:128-134 | the new state and the exception are those of `Realigned`, through List.Rotate as written |
| EnigmaMachines.Lamp | src/Horus/Classical/Algorithms/EnigmaMachine/EnigmaMachine.cs:201-222 | stator forward, rotors 0..n-1 forward, reflector, rotors n-1..0 backward, stator backward, read off the alphabet |
| EnigmaMachines.Forward | src/Horus/Classical/Algorithms/EnigmaMachine/EnigmaMachine.cs:207-211 | a failed pin stays failed through the rotors |
| EnigmaMachines.Backward | src/Horus/Classical/Algorithms/EnigmaMachine/EnigmaMachine.cs:215-219 | a failed pin stays failed back through the rotors |
| EnigmaMachines.ForwardInverse | src/Horus/Classical/Algorithms/EnigmaMachine/EnigmaMachine.cs:207-211 | through sound rotors a pin below n comes out below n, and the way back returns it |
| EnigmaMachines.BackwardInverse | src/Horus/Classical/Algorithms/EnigmaMachine/EnigmaMachine.cs:215-219 | the backward pass likewise, returned by the forward pass |
| EnigmaMachines.LampTrace | src/Horus/Classical/Algorithms/EnigmaMachine/EnigmaMachine.cs:201-222 | on a reciprocal machine a letter of the alphabet lights a lamp, every pin on the way in range |
| EnigmaMachines.LampInvolution | src/Horus/Classical/Algorithms/EnigmaMachine/EnigmaMachine.cs:201-222 | with the rotors still, the lamp lit by a letter's lamp is the letter |
| EnigmaMachines.LampNeverSelf | src/Horus/Classical/Algorithms/EnigmaMachine/EnigmaMachine.cs:201-222 | with a reflector that wires no letter to itself, no letter lights its own lamp |
| EnigmaMachines.Cascade | src/Horus/Classical/Algorithms/EnigmaMachine/EnigmaMachine.cs:140-150 | rotor i rotates; a notch rotates rotor i + 1 the same way; a notch on the last rotor does nothing; the rotors before i are unchanged; when a later rotor throws, rotor i keeps its notch flag armed, since the handler runs before the flag is cleared |
| EnigmaMachines.CascadeEnds | src/Horus/Classical/Algorithms/EnigmaMachine/EnigmaMachine.cs:140-150 | without a notch to pass on, the cascade ends with rotor i's rotation |
| EnigmaMachines.CascadeOn | src/Horus/Classical/Algorithms/EnigmaMachine/EnigmaMachine.cs:140-150 | a notch passes the cascade on to rotor i + 1, and rotor i's flag stays armed if that throws |
| EnigmaMachines.Advance | src/Horus/Classical/Algorithms/EnigmaMachine/EnigmaMachine.cs:195 | the key press steps rotor 0 first; no rotors throws ArgumentOutOfRange |
| EnigmaMachines.CascadeSound | src/Horus/Classical/Algorithms/EnigmaMachine/EnigmaMachine.cs:140-150 | sound rotors step without exception and stay sound |
| EnigmaMachines.CascadeNotch | src/Horus/Classical/Algorithms/EnigmaMachine/EnigmaMachine.cs:140-150 | a notch on rotor i (not the last) turns rotor i + 1; without one the rotors after i stay as they were |
| EnigmaMachines.Pressed | src/Horus/Classical/Algorithms/EnigmaMachine/EnigmaMachine.cs:192-224 | the rotors step, then the current runs through the rotors as they now stand |
| EnigmaMachines.PressedReciprocal | src/Horus/Classical/Algorithms/EnigmaMachine/EnigmaMachine.cs:192-224 | on a reciprocal machine a key press lights a lamp of the alphabet, the machine stays reciprocal, and pressing the lamp's letter instead lights the key |
| EnigmaMachines.Typed | src/Horus/Classical/Algorithms/EnigmaMachine/EnigmaMachine.cs:175-185 | the characters pressed in turn; the output has the input's length |
| EnigmaMachines.TypedMotion | src/Horus/Classical/Algorithms/EnigmaMachine/EnigmaMachine.cs:175-224 | the rotors move the same way whatever keys are pressed: equal-length texts leave the same states |
| EnigmaMachines.TypedTwice | src/Horus/Classical/Algorithms/EnigmaMachine/EnigmaMachine.cs:72-78 | from the same rotor states, typing the output of a message gives back the message |
| EnigmaMachines.WindowsOf | src/Horus/Classical/Algorithms/EnigmaMachine/EnigmaMachine.cs:119-134 | each rotor's window letter in order; an empty etching throws |
| EnigmaMachines.ConfigOf | src/Horus/Classical/Algorithms/EnigmaMachine/EnigmaMachine.cs:98-114 | the alphabet index of each window letter, -1 for a letter outside the alphabet |
| EnigmaMachines.WindowFor | src/Horus/Classical/Algorithms/EnigmaMachine/EnigmaMachine.cs:159-168 | Key[i], or Alphabet[0] for an empty key; a short key throws IndexOutOfRange |
| EnigmaMachines.Resets | src/Horus/Classical/Algorithms/EnigmaMachine/EnigmaMachine.cs:159-168 | each rotor reset to its window letter in turn; the first exception stops the loop |
| EnigmaMachines.ResetsKeep | src/Horus/Classical/Algorithms/EnigmaMachine/EnigmaMachine.cs:159-168 | once a reset has thrown, further rotors change nothing |
| EnigmaMachines.ResetsToKey | src/Horus/Classical/Algorithms/EnigmaMachine/EnigmaMachine.cs:159-168 | after ResetRotors rotor i's window is Key[i], or Alphabet[0] when the key is empty, and the rotors stay sound |
| EnigmaMachines.StatesOf | src/Horus/Classical/Algorithms/EnigmaMachine/EnigmaMachine.cs:69-70 | the states of the rotors, one by one |
| EnigmaMachines.EnigmaMachine.constructor | src/Horus/Classical/Algorithms/EnigmaMachine/EnigmaMachine.cs:32-37 | the machine holds the given rotors, AutoReset off |
| EnigmaMachines.EnigmaMachine.RotateAt | src/Horus/Classical/Algorithms/EnigmaMachine/EnigmaMachine.cs:146-149 | rotor i rotated; no other rotor changes |
| EnigmaMachines.EnigmaMachine.ResetAt | src/Horus/Classical/Algorithms/EnigmaMachine/EnigmaMachine.cs:166 | rotor i reset; no other rotor changes |
| EnigmaMachines.EnigmaMachine.Step | src/Horus/Classical/Algorithms/EnigmaMachine/EnigmaMachine.cs:140-150 | the rotor states and the exception are those of `Advance` |
| EnigmaMachines.EnigmaMachine.CascadeFrom | src/Horus/Classical/Algorithms/EnigmaMachine/EnigmaMachine.cs:140-150 | rotor i rotated and the notch handled on the following rotors: the states and the exception are those of `Cascade` |
| EnigmaMachines.EnigmaMachine.RearmAt | src/Horus/Classical/Algorithms/EnigmaMachine/Rotor.cs:112-116 | rotor i's notch flag set again; nothing else changes |
| EnigmaMachines.EnigmaMachine.Signal | src/Horus/Classical/Algorithms/EnigmaMachine/EnigmaMachine.cs:201-222 | the lamp is `Lamp` of the rotor states |
| EnigmaMachines.EnigmaMachine.Forwards | src/Horus/Classical/Algorithms/EnigmaMachine/EnigmaMachine.cs:207-211 | the loop over the rotors in order gives `Forward` |
| EnigmaMachines.EnigmaMachine.Backwards | src/Horus/Classical/Algorithms/EnigmaMachine/EnigmaMachine.cs:215-219 | the loop over the rotors in reverse gives `Backward` |
| EnigmaMachines.EnigmaMachine.RunChar | src/Horus/Classical/Algorithms/EnigmaMachine/EnigmaMachine.cs:192-224 | the new states and the lamp are those of `Pressed` |
| EnigmaMachines.EnigmaMachine.ResetRotors | src/Horus/Classical/Algorithms/EnigmaMachine/EnigmaMachine.cs:159-168 | the new states and the exception are those of `Resets` over all rotors |
| EnigmaMachines.EnigmaMachine.TypeAll | src/Horus/Classical/Algorithms/EnigmaMachine/EnigmaMachine.cs:177-182 | the new states and the output are those of `Typed` |
| EnigmaMachines.EnigmaMachine.Run | src/Horus/Classical/Algorithms/EnigmaMachine/EnigmaMachine.cs:175-185 | `Typed`, then with AutoReset `Resets` of the states typing left |
| EnigmaMachines.EnigmaMachine.Windows | src/Horus/Classical/Algorithms/EnigmaMachine/EnigmaMachine.cs:119-134 | `WindowsOf` the rotor states |
| EnigmaMachines.EnigmaMachine.RotorConfig | src/Horus/Classical/Algorithms/EnigmaMachine/EnigmaMachine.cs:98-114 | `ConfigOf` the rotor states |
| Plugboards.SwappedInvolution | src/Horus/Classical/Algorithms/EnigmaMachine/Plugboard.cs:27-31 | on a board of pairs, Simulate(Simulate(c)) == c |
| Plugboards.PlugAsWritten | src/Horus/Classical/Algorithms/EnigmaMachine/Plugboard.cs:40-57 | only x is checked; an existing x is unchanged; on success x maps to y |
| Plugboards.PlugAsWrittenBreaks | src/Horus/Classical/Algorithms/EnigmaMachine/Plugboard.cs:43-54 | on the board B-C, adding A-B throws ArgumentException after entering A -> B, and Simulate twice maps A to C |
| Plugboards.Plug | src/Horus/Classical/Algorithms/EnigmaMachine/Plugboard.cs:40-57 | both letters checked first: success exactly for the existing pair x-y or two fresh distinct letters; then x -> y and y -> x, every other letter unchanged |
| Plugboards.PlugInvolutive | src/Horus/Classical/Algorithms/EnigmaMachine/Plugboard.cs:40-57 | adding a pair keeps a board of pairs a board of pairs |
| Plugboards.PlugAgrees | src/Horus/Classical/Algorithms/EnigmaMachine/Plugboard.cs:40-57 | the as-written and the checked AddSocketPair succeed on the same calls and then leave the same board |
| Plugboards.Unplug | src/Horus/Classical/Algorithms/EnigmaMachine/Plugboard.cs:64-74 | the letter and its partner removed; an unplugged letter changes nothing |
| Plugboards.UnplugInvolutive | src/Horus/Classical/Algorithms/EnigmaMachine/Plugboard.cs:64-74 | removing a pair keeps a board of pairs, and both letters then pass straight through |
| Plugboards.PlugUnplug | src/Horus/Classical/Algorithms/EnigmaMachine/Plugboard.cs:40-74 | unplugging a pair just added gives the board back |
| Plugboards.Plugboard.constructor | src/Horus/Classical/Algorithms/EnigmaMachine/Plugboard.cs:16-19 | no pairs |
| Plugboards.Plugboard.Simulate | src/Horus/Classical/Algorithms/EnigmaMachine/Plugboard.cs:27-31 | on a board of pairs, simulating the result gives the letter back |
| Plugboards.Plugboard.AddSocketPair | src/Horus/Classical/Algorithms/EnigmaMachine/Plugboard.cs:40-57 | as written: the board and exception of `PlugAsWritten`; when it does not throw, a board of pairs stays one |
| Plugboards.Plugboard.RemoveSocketPair | src/Horus/Classical/Algorithms/EnigmaMachine/Plugboard.cs:64-74 | the board of `Unplug`; a board of pairs stays one |
| HslColors.Byte | src/Goro/Utilities/HSLColor.cs:169-183 | a (byte) cast: the value mod 256, in 0..255 |
| HslColors.LuminosityOf | src/Goro/Utilities/HSLColor.cs:29-33 | ((max + min) * 240 + 255) / 510, in 0..240 for channels in 0..255 |
| HslColors.FromRgb | src/Goro/Utilities/HSLColor.cs:19-77 | the luminosity of the colour; for a grey saturation 0 and hue Undefined (160) |
| HslColors.FromRgbSaturation | src/Goro/Utilities/HSLColor.cs:43-47 | the saturation is in 0..240 and is 0 exactly for a grey |
| HslColors.FromRgbHue | src/Goro/Utilities/HSLColor.cs:53-75 | the hue is in 0..240 |
| HslColors.DeltaRange | src/Goro/Utilities/HSLColor.cs:49-51 | each channel delta is between 0 and a sixth of the circle |
| HslColors.NewLuma | src/Goro/Utilities/HSLColor.cs:122-148 | unscaled, the result is clamped to 0..240 |
| HslColors.NewLumaScaled | src/Goro/Utilities/HSLColor.cs:128-135 | a scaled darker shade lies between 0 and the luminosity, a lighter one between the luminosity and 241 |
| HslColors.HueToRGB | src/Goro/Utilities/HSLColor.cs:186-220 | the hue wrapped by one turn, then the four segments: rising, n2, falling, n1 |
| HslColors.HueToRGBBetween | src/Goro/Utilities/HSLColor.cs:186-220 | for a hue within a turn of the range the value is between n1 and n2 |
| HslColors.RampBetween | src/Goro/Utilities/HSLColor.cs:196-218 | on a ramp segment the value is between n1 and n2 |
| HslColors.ColorFromHSL | src/Goro/Utilities/HSLColor.cs:150-184 | saturation 0 gives a grey with r = g = b = luminosity * 255 / 240, truncated |
| HslColors.MagicRange | src/Goro/Utilities/HSLColor.cs:161-167 | 0 <= magic1 <= luminosity <= magic2 <= 240 for components in 0..240 |
| HslColors.ColorFromHSLInRange | src/Goro/Utilities/HSLColor.cs:169-183 | for components in 0..240 no (byte) cast wraps: each channel is its rounded level, in 0..255 |
| HslColors.GreyRoundTrip | src/Goro/Utilities/HSLColor.cs:19-184 | grey v through HSL and back gives grey v or v - 1 |
| PlutoBooks.FindAccount | src/Pluto/PlutoBook.cs:153-156 | the first account with the id, or -1 exactly when there is no such account or no collection |
| PlutoBooks.FindTransaction | src/Pluto/PlutoBook.cs:197 | the first transaction with the id, or -1 exactly when there is none |
| PlutoBooks.Created | src/Pluto/PlutoBook.cs:123-146 | null accounts or a taken id throw InvalidOperation; otherwise exactly one account appended, the others kept |
| PlutoBooks.CreatedFound | src/Pluto/PlutoBook.cs:123-146 | after creation the account is found by its id, and unique ids stay unique |
| PlutoBooks.WithTransaction | src/Pluto/PlutoBook.cs:178-184 | the transaction appended to one account; all account ids and the other accounts unchanged |
| PlutoBooks.Edited | src/Pluto/PlutoBook.cs:202-208 | the transaction takes the source's six fields, the others unchanged |
| PlutoBooks.EditedKeepsIds | src/Pluto/PlutoBook.cs:202-208 | editing the first transaction with the source's id keeps every transaction id |
| PlutoBooks.Deleted | src/Pluto/PlutoBook.cs:230 | one transaction removed: one shorter, the multiset less that transaction |
| PlutoBooks.AddThenDelete | src/Pluto/PlutoBook.cs:178-231 | deleting by the id of a transaction just added with a new id gives the transactions back |
| PlutoBooks.IndexedFresh | src/Pluto/PlutoBook.cs:237-247 | the incremented indexer is fresh: the new invoice's index differs from every earlier one and stays within the indexer |
| PlutoBooks.PlutoBook.constructor | src/Pluto/PlutoBook.cs:16-20 | every collection null, indexer 0 |
| PlutoBooks.PlutoBook.GetAccount | src/Pluto/PlutoBook.cs:153-156 | the first account with the id, or null exactly when there is none |
| PlutoBooks.PlutoBook.DefaultAccount | src/Pluto/PlutoBook.cs:38 | an account of the book whose id is DefaultAccountId, or null |
| PlutoBooks.PlutoBook.CreateAccount | src/Pluto/PlutoBook.cs:95-112 | null accounts throw InvalidOperation; otherwise one account with the generated id appended |
| PlutoBooks.PlutoBook.CreateAccountWithId | src/Pluto/PlutoBook.cs:123-146 | as `Created`; the new account is then what GetAccount finds, and unique ids stay unique |
| PlutoBooks.PlutoBook.ChangeDefaultAccount | src/Pluto/PlutoBook.cs:163-172 | nothing for the current id; AccountNotFound for an unknown id; otherwise DefaultAccountId set |
| PlutoBooks.PlutoBook.AddTransaction | src/Pluto/PlutoBook.cs:178-184 | AccountNotFound, NullReference for an account without transactions, otherwise `WithTransaction` |
| PlutoBooks.PlutoBook.EditTransaction | src/Pluto/PlutoBook.cs:191-209 | AccountNotFound, ArgumentNull, TransactionNotFound, otherwise the first match `Edited` |
| PlutoBooks.PlutoBook.DeleteTransaction | src/Pluto/PlutoBook.cs:219-231 | AccountNotFound, ArgumentNull, TransactionNotFound, otherwise the first match `Deleted` and true |
| PlutoBooks.PlutoBook.CreateSentInvoice | src/Pluto/PlutoBook.cs:237-247 | InvoiceIndexer + 1, a blank invoice with the new index appended; distinct indices no greater than the indexer stay so |
| PlutoBooks.PlutoBook.CreateSentInvoiceFrom | src/Pluto/PlutoBook.cs:254-263 | a copy of the source with the next index appended, indices kept distinct |
| PlutoBooks.PlutoBook.AddReceivedInvoice | src/Pluto/PlutoBook.cs:269-272 | the invoice appended as it is; null collection throws NullReference |

## Left out

- Input and output: the console prompts and `main` of the C++ tool, file
  reading in `load_dictionary` and `LoadDictionary` (lines are a parameter),
  progress reporting, `EnigmaMachineIO`.
- Randomness: `Shuffle` of lists and alphabets, random rotors, and
  `Horus.GenerateId()`, whose result `CreateAccount` takes as a parameter.
- Floating point: `HSLColor` `Darker`/`Lighter`, and `IsPerfectSquare`,
  which is modelled with an integer square root (exact for counts of a list).
- The asynchronous hacks (`PlayfairHackAsync`, `HackAsync`) and
  cancellation.
- `vin_detective` and `deferred` of the C++ tool: prompts and an unused
  heuristic.
- The definitions of `Prepare()` and `ReplaceAt()` are not part of this
  model. `Prepare` is assumed to upper-case and remove blanks, and
  `ReplaceAt(i, c)` to write `c` at position `i`.
- `DoubleStep` of the Enigma machine: the flag exists, but nothing reads it.
- The machine's own `Hack` (inherited from `ClassicalAlgorithm`) is modelled
  once, on Playfair.
- Null references beyond those listed (null alphabets, stator, reflector,
  keys), and aliasing: a rotor added twice to one machine.
- The `HitNotch` event subscription (`Rotors_CollectionChanged`) is
  modelled as a direct call of the handler on the next rotor.
- Rotors.Turned: when `IsTurnOver` throws inside `Rotate`, the source
  leaves the flag as it was, and the model does too.
- The `forward` argument of `EnigmaMachine.Run(string, bool)`: the source
  ignores it.
- Decimal amounts and `DateTime` of transactions are whole numbers.
  `Invoice.details` stands for every field `Update` copies except the index.
- PlutoBooks.PlutoBook.CreateSentInvoice: the indexer is unbounded, so the
  32-bit wrap-around of `InvoiceIndexer++` at int.MaxValue is not modelled.
- HslColors.FromRgb: only the luminosity and the grey case are stated in its
  contract. The saturation and the hue ranges are in `FromRgbSaturation` and
  `FromRgbHue`.
- PlutoInvoice totals and `IOUtility.CombinePath`.
- The character sets are ASCII: `toupper`, `char.ToUpper` and
  `char.ToLower` change only 'a'..'z' and 'A'..'Z'.

## Findings

| source | as written | input that shows it | evidently intended | confidence | as-written member | corrected member |
|---|---|---|---|---|---|---|
| src/Core/Extensions/GenericCollectionsExtensions.cs:84 | the negative branch loops while `offset <= 0`, so it rotates \|offset\| + 1 times | [1, 2, 3] rotated by -1 gives [2, 3, 1] | [3, 1, 2], with the test `offset < 0` | not executed | Collections.RotateAsWrittenOffByOne | Collections.Rotate |
| src/Horus/Classical/Algorithms/EnigmaMachine/Rotor.cs:108-110 | `Rotate(false)` calls List.Rotate(-1), which turns both lists two places back | a rotor A-B-C rotated forward and then back shows C instead of A | one place back, so that backward undoes forward | not executed | Rotors.TurnBack | Rotors.TurnBackCorrected |
| src/Horus/Classical/Alphabet/AlphaMain.cs:269 | `X %= max_x` keeps the sign of the dividend, so Limit leaves -1 at -1 | alphabet ABCD on a 2 x 2 grid, empty key: decrypting "BA" reads column -1 | wrap -1 to max - 1, so that Decrypt undoes Encrypt | not executed | HorusPlayfair.LimitBreaksDecrypt | HorusPlayfair.RunRoundTrip |
| Enigma/_dump/main.cpp:396 | the Vigenère loops run while `i <= size`, reading the terminating NUL and scanning past `letters` | "HELLO" with key "KEY" | `i < size`: "SJKWT" | not executed | CppTool.VigenereLoopAsWritten | CppTool.VigenereHelloKey |
| Enigma/_dump/main.cpp:157-166 | dict_check accepts an entry that fails its guard, and the inner loop increments i instead of x | dictionary ["A", "", ...] accepts "ZZZ" | accept only when the input starts with a dictionary word | not executed | CppHack.DictCheckAcceptsZZZ | CppHack.DictCheck |
| Enigma/_dump/main.cpp:116-136 | after a leading "A" or "I" the buffer handed to dict_check is written from index 1 or 2 and never terminated | any text starting with 'A' or 'I' | check the rest of the text after "AN", "A" or "I" | not executed | CppHack.LogicCheckAsWritten | CppHack.LogicCheck |
| Enigma/Classical.cs:47 | the marking loop runs to `key.Length` but indexes the prepared key, which is shorter when the key has blanks | "ATTACK" with key "PLAY FAIR" throws IndexOutOfRange | run to the prepared key's length | not executed | Classical.PlayfairBlankKey | Classical.PlayfairCipher |
| Enigma/Classical.cs:206 | PlayfairDecipher upper-cases a small omitted letter, PlayfairCipher does not, so the two build different squares | "GS" with the empty key and 'q' enciphers to "IR", which deciphers to "GT" | the same square both ways | not executed | Classical.PlayfairOmitCase | Classical.PlayfairRoundTrip |
| src/Horus/Classical/Algorithms/EnigmaMachine/Plugboard.cs:43-54 | only x is checked for an existing pair; the entry x -> y is made before `Add(y, x)` throws when y is already plugged | board B-C, AddSocketPair('A', 'B') | check y too before changing the board | not executed | Plugboards.PlugAsWrittenBreaks | Plugboards.PlugInvolutive |
