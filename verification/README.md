# modAlphaCipher in Dafny

A Dafny model of `modAlphaCipher`, a Gronsfeld cipher over the 33-letter Russian alphabet
`АБВГДЕЁЖЗИЙКЛМНОПРСТУФХЦЧШЩЪЫЬЭЮЯ`, with Ё right after Е. The constructor takes a key
word. It validates the word, upper-cases it and turns it into a sequence of shifts: the
alphabet positions of its letters. `encrypt` validates and upper-cases the text, then moves
letter `i` forward by shift `i mod keyLength` round the alphabet. `decrypt` moves it back by the
same amount. An empty key or text is rejected with `cipher_error`, and so is one containing
a character that is neither a letter of the alphabet nor one of its lower-case forms
(а..я, ё).

The repository has one component, declared in `modAlphaCipher.h`. Its method bodies appear
there only as `@code` excerpts in the doc comments. The model follows those excerpts. Where
no excerpt is given, it follows the `@details` and `@throw` text. The constructor's excerpt shows
only the index loop; that it stores `convert(getValidKey(skey))` as `key` is reconstructed from
the `key` attribute's type and the validators' description.

Modules:

- `CipherErrors` (`errors.dfy`): `cipher_error` as a `Result` whose error is `InvalidKey` or `InvalidText`.
- `Alphabet` (`alphabet.dfy`): the alphabet `NumAlpha` and the reverse index `AlphaNum`.
  The constructor's loop that fills the index is `ReverseIndex`, one turn at a time
  through `IndexStep`. Upper-casing is `Upper`. `Position` is an independent reference
  for letter positions, computed from Unicode code points, and `Wrap` counts round the
  alphabet (remainder modulo 33).
- `ModAlphaCipher` (`cipher.dfy`): both `convert` overloads, `getValidKey`/`getValidText`,
  the constructor (`New`), `encrypt` and `decrypt`. It contains their per-step arithmetic in
  `std::size_t`, and the round-trip, cyclic-key, case and example lemmas.
- `NarrowedIndex` (`narrowed.dfy`): the reverse index as it is actually declared, keyed by
  `char` (see Findings).

Where the documentation and the declarations disagree, the declarations win:

- The `encrypt`/`decrypt` comments call `getValidAlphabetText`. The class declares
  `getValidText`, so the model uses that.
- Nothing in the header trims input before the emptiness test, so no trimming is modelled.

## Model

| member | source | states |
|---|---|---|
| Alphabet.NumAlphaIsLiteral | modAlphaCipher.h:22 | the alphabet is exactly the 33-letter literal, Ё after Е |
| Alphabet.PositionOfLetter | modAlphaCipher.h:22 | the letter at place `i` of the alphabet has code-point place `i` |
| Alphabet.LetterOfPosition | modAlphaCipher.h:22 | a character with a code-point place is the letter at that place, so places identify letters |
| Alphabet.InAlphabetIsMembership | modAlphaCipher.h:22 | a character is in the alphabet iff it has a code-point position, and the alphabet holds it at that position |
| Alphabet.LettersPositioned | modAlphaCipher.h:22 | every letter sits at its code-point position, so no letter occurs twice and the alphabet has 33 letters |
| Alphabet.Upper | modAlphaCipher.h:54 | upper-casing yields an alphabet letter exactly for Russian letters of either case, and leaves alphabet letters unchanged |
| Alphabet.Lower | modAlphaCipher.h:63 | lower-casing turns every alphabet letter into a lower-case Russian letter and leaves every other character alone |
| Alphabet.UpperOfLower | modAlphaCipher.h:54 | lower-casing before upper-casing changes nothing |
| Alphabet.IndexStep | modAlphaCipher.h:76-78 | one more turn of the loop stores the next letter under its place as a new key and disturbs no earlier entry, so the index grows by exactly one |
| Alphabet.ReverseIndex | modAlphaCipher.h:76-78 | after the whole loop the keys are exactly the letters seen, each maps to its code-point place, letter `i` maps to `i`, and there is one entry per letter |
| Alphabet.AlphaNum | modAlphaCipher.h:73-79 | `alphaNum` has exactly the alphabet letters as keys, maps each to its code-point place, and has size 33 |
| Alphabet.AlphaNumInvertsAlphabet | modAlphaCipher.h:22-24 | `alphaNum[numAlpha[i]] == i` for every `i < 33`, and `numAlpha[alphaNum[c]] == c` for every key `c` |
| ModAlphaCipher.Lookup | modAlphaCipher.h:33 | `alphaNum[c]` is the position of a letter, and the letter at that position is `c`; any other character reads as 0 |
| ModAlphaCipher.ToIndices | modAlphaCipher.h:27-38 | text to indices keeps length and order; every index lies in `[0, 33)`; each letter becomes its position |
| ModAlphaCipher.ToText | modAlphaCipher.h:39-50 | indices to text keeps length and order; the result is alphabet-only and letter `i` has position `v[i]` |
| ModAlphaCipher.TextRoundTrip | modAlphaCipher.h:27-50 | converting an alphabet-only text to indices and back gives it again |
| ModAlphaCipher.IndexRoundTrip | modAlphaCipher.h:27-50 | converting in-range indices to text and back gives them again |
| CipherErrors.CipherError | modAlphaCipher.h:127-134 | `cipher_error`: a rejection carrying a message, split by kind into a bad key and a bad text |
| ModAlphaCipher.Reject | modAlphaCipher.h:56 | a rejection is `InvalidKey` exactly when the key is being checked |
| ModAlphaCipher.Validate | modAlphaCipher.h:51-68 | validation succeeds iff the input is non-empty and all Russian letters; the result has the same length, is upper-cased letter by letter, and lies in the alphabet |
| ModAlphaCipher.GetValidKey | modAlphaCipher.h:51-59 | as `Validate`; on failure the error is `InvalidKey` |
| ModAlphaCipher.GetValidText | modAlphaCipher.h:60-68 | as `Validate`; on failure the error is `InvalidText` |
| ModAlphaCipher.ValidateIdempotent | modAlphaCipher.h:51-68 | validating an already validated string returns it unchanged |
| ModAlphaCipher.ValidateAlphabetic | modAlphaCipher.h:60-68 | a non-empty alphabet-only string is accepted as it is |
| ModAlphaCipher.UpperAll | modAlphaCipher.h:54 | upper-casing a string keeps its length and upper-cases each character in place |
| ModAlphaCipher.HistoricFormRejected | modAlphaCipher.h:63 | the historic form U+1C80 is not a Russian letter, is left alone by upper-casing and is rejected by validation (see Left out, `Alphabet.Upper`) |
| ModAlphaCipher.ValidateIgnoresCase | modAlphaCipher.h:51-68 | lower-casing the input first gives the same outcome, success or error |
| ModAlphaCipher.Unsigned | modAlphaCipher.h:116 | converting to `size_t` gives a value below 2^64 that is congruent to the input modulo 2^64, and leaves values already in range alone |
| ModAlphaCipher.KeyAt | modAlphaCipher.h:95 | the key element used at position `i`: during the first pass it is `key[i]`, and for an in-range key it is an alphabet position |
| ModAlphaCipher.EncryptStep | modAlphaCipher.h:95 | the `size_t` expression equals the sum of position and shift, taken once round the alphabet, in `[0, 33)` |
| ModAlphaCipher.DecryptStep | modAlphaCipher.h:111-116 | adding the modulus before subtracting avoids any wrap-around; the result is the true difference modulo 33, in `[0, 33)` |
| ModAlphaCipher.SubtractingFirstWouldWrap | modAlphaCipher.h:111-113 | subtracting first in `size_t` gives 15 for `0 - 1`, where the intended result is 32 |
| ModAlphaCipher.StepsCancel | modAlphaCipher.h:95-116 | a decryption step undoes an encryption step with the same shift, and vice versa |
| ModAlphaCipher.RepeatKeyAt | modAlphaCipher.h:90-95 | position `i` of the key written out end to end is key element `i mod keyLength` |
| ModAlphaCipher.EncryptIndices | modAlphaCipher.h:94-96 | the encryption loop keeps length and range; element `i` is `(work[i] + key[i mod keyLength]) mod 33` |
| ModAlphaCipher.DecryptIndices | modAlphaCipher.h:115-117 | the decryption loop keeps length and range; element `i` is `(work[i] - key[i mod keyLength]) mod 33`, never negative |
| ModAlphaCipher.EncryptAddsRepeatedKey | modAlphaCipher.h:90-96 | encryption adds the key repeated end to end, so a text longer than the key starts the key over at position `keyLength` |
| ModAlphaCipher.IndicesRoundTrip | modAlphaCipher.h:111-117 | on index sequences, decryption undoes encryption and encryption undoes decryption |
| ModAlphaCipher.ValidCipher | modAlphaCipher.h:25-26 | the invariant of the `key` attribute after construction: non-empty, every shift an alphabet position |
| ModAlphaCipher.New | modAlphaCipher.h:72-82 | construction succeeds iff the key is non-empty and all Russian letters, and fails with `InvalidKey` otherwise; on success the key is non-empty, in range, as long as the word, and shift `i` is the position of upper-cased letter `i` |
| ModAlphaCipher.Encrypt | modAlphaCipher.h:83-103 | succeeds iff the text is non-empty and all Russian letters, and fails with `InvalidText` otherwise; on success the output has the text's length and is alphabet-only |
| ModAlphaCipher.EncryptShiftsEachLetter | modAlphaCipher.h:90-97 | output letter `i` is upper-cased input letter `i` moved forward by `key[i mod keyLength]`, modulo 33 |
| ModAlphaCipher.Decrypt | modAlphaCipher.h:104-124 | succeeds iff the text is non-empty and all Russian letters, and fails with `InvalidText` otherwise; on success the output has the text's length and is alphabet-only |
| ModAlphaCipher.DecryptShiftsEachLetter | modAlphaCipher.h:111-118 | output letter `i` is upper-cased input letter `i` moved back by `key[i mod keyLength]`, modulo 33 |
| ModAlphaCipher.DecryptEncrypt | modAlphaCipher.h:83-124 | for any valid key and admissible text, decrypting the encryption yields the validated, upper-cased text |
| ModAlphaCipher.EncryptDecrypt | modAlphaCipher.h:83-124 | for any valid key and admissible text, encrypting the decryption yields the validated, upper-cased text |
| ModAlphaCipher.CipherIgnoresCase | modAlphaCipher.h:51-68 | a lower-case key builds the same cipher, and lower-case text encrypts and decrypts the same, as the upper-case form |
| ModAlphaCipher.ZeroKeyIsIdentity | modAlphaCipher.h:94-96 | a key made only of А leaves every validated text unchanged |
| ModAlphaCipher.SamePositionsSameText | modAlphaCipher.h:22 | two alphabet-only texts whose letters have the same positions are equal |
| ModAlphaCipher.ToTextOf | modAlphaCipher.h:39-50 | converting in-range indices gives exactly the alphabet-only text whose positions they are |
| ModAlphaCipher.EncryptedTextIs | modAlphaCipher.h:88-98 | convert, shift forward and convert back gives exactly the text whose letter `i` is letter `i` moved on by `key[i mod keyLength]` |
| ModAlphaCipher.DecryptedTextIs | modAlphaCipher.h:109-118 | convert, shift back and convert back gives exactly the text whose letter `i` is letter `i` moved back by `key[i mod keyLength]` |
| ModAlphaCipher.NewYields | modAlphaCipher.h:72-82 | an upper-case key word builds exactly the shifts given by its letters' positions |
| ModAlphaCipher.EncryptYields | modAlphaCipher.h:90-97 | any output that has the per-letter forward shift is the encryption |
| ModAlphaCipher.DecryptYields | modAlphaCipher.h:111-118 | any output that has the per-letter backward shift is the decryption |
| ModAlphaCipher.ExampleLetters | modAlphaCipher.h:22 | Б, В, Г sit at places 1, 2, 3; under shifts 1, 2, 3 each letter of БВГБ is the letter of АААА moved on, and each letter of АААА the letter of БВГБ moved back |
| ModAlphaCipher.ExampleKey | modAlphaCipher.h:72-82 | the key БВГ gives the shifts 1, 2, 3 |
| ModAlphaCipher.ExampleEncrypt | modAlphaCipher.h:90-97 | with shifts 1, 2, 3, АААА encrypts to БВГБ, reusing the first shift at position 3 |
| ModAlphaCipher.ExampleDecrypt | modAlphaCipher.h:111-118 | with shifts 1, 2, 3, БВГБ decrypts to АААА |
| NarrowedIndex.Narrow | modAlphaCipher.h:24 | a `wchar_t` stored as a `char` key keeps only its low byte, read as a signed `char` as on x86; every letter's byte is below 0x80, so no result here depends on the sign |
| NarrowedIndex.NarrowLetter | modAlphaCipher.h:22-24 | А..Е narrow to 0x10..0x15, Ё to 0x01, and Ж..Я to 0x16..0x2F |
| NarrowedIndex.NarrowInjective | modAlphaCipher.h:22-24 | no two letters narrow to the same byte |
| NarrowedIndex.NarrowedStep | modAlphaCipher.h:76-78 | with narrowed keys, one more turn of the loop still adds a new key, because the next letter's byte is not yet taken |
| NarrowedIndex.NarrowedIndex | modAlphaCipher.h:76-78 | the loop with narrowed keys stores one entry per letter, and each entry points back to a letter with that key |
| NarrowedIndex.NarrowedAlphaNum | modAlphaCipher.h:24 | the index as declared maps each letter's narrowed byte to its position, every key comes from some letter, and it has 33 entries |
| NarrowedIndex.NarrowedLookup | modAlphaCipher.h:33 | `alphaNum[c]` on the declared map: a letter reads as its position, a character whose byte is taken reads as the position of the letter owning that byte, any other as 0 |
| NarrowedIndex.NarrowedAgreesOnLetters | modAlphaCipher.h:24 | the declared index still has 33 entries, so the modulus is unchanged; on every letter it agrees with the intended index |
| NarrowedIndex.SpaceReadsAsEr | modAlphaCipher.h:24 | a space is not a letter, yet the declared index finds it and reads it as Р (position 17) |

## Left out

- Locale setup (`<locale>`) is not modelled. Upper-casing is an explicit table for the Russian letters.
- Alphabet.Upper: upper-cases only the 33 lower-case letters of the alphabet, as the validators'
  description promises; every other character is left unchanged. If the implementation uses a
  locale-aware `towupper` with Unicode 9.0 or later data, the historic Cyrillic forms
  U+1C80..U+1C86 also upper-case to В, Д, О, С, Т, Т and Ъ, so such an implementation accepts
  them where the model rejects them (`HistoricFormRejected`). The implementation file is not
  part of this model, so which conversion it uses cannot be seen.
- The bodies of `getValidKey` and `getValidText` are not shown in the header, only described.
  The model checks emptiness first, then upper-cases, then checks membership. The messages
  `Empty key`, `Invalid key`, `Empty text` and `Invalid text` are placeholders. The
  implementation file that holds the real messages is not part of this model.
- `cipher_error` and its `std::invalid_argument` base class are not modelled as exceptions.
  A `Result` whose error value carries the kind and a message takes their place.
- The deleted default constructor has no counterpart: `New` is the only way to build a
  cipher from a key word. Because a `Cipher` value can still be written down directly,
  `Encrypt` and `Decrypt` require the invariant that `New` establishes (`ValidCipher`).
- `std::map::operator[]` inserts a zero entry for a missing key. `Lookup` returns the 0
  but does not insert it. Only validated strings are ever converted, so the index never
  actually grows.
- ModAlphaCipher.ToText: requires every index to be in `[0, 33)`. In the source, index 33
  reads the terminating `L'\0'` of `numAlpha`, and any other index outside `[0, 33)` is
  undefined. Neither case arises, because `encrypt` and `decrypt` convert only remainders
  modulo 33.
- The 32-bit width of `int` is not modelled. Positions and shifts stay below 66, so they
  never come near it. The 64-bit `size_t` arithmetic of the two loop bodies is modelled.
- ModAlphaCipher.EncryptIndices: the loop counter is a 32-bit `unsigned` compared with the
  64-bit `work.size()`. For a text of 2^32 letters or more the counter wraps to 0 before it
  reaches the size and the source never returns; the model returns for every length.
- ModAlphaCipher.DecryptIndices: the same 32-bit `unsigned` loop counter; for a text of 2^32
  letters or more the source never returns, the model returns for every length.
- Determinism and concurrency need no model: every operation is a pure function.

## Findings

| source | as written | input that shows it | evidently intended | confidence | as-written member | corrected member |
|---|---|---|---|---|---|---|
| modAlphaCipher.h:24 | the reverse index is a `std::map<char,int>`. Each `wchar_t` letter is narrowed to its low byte when stored, and each character when looked up. | a space (U+0020) narrows to 0x20, the key of Р (U+0420). `alphaNum[L' ']` finds an entry and reads the space as Р (position 17). Any character whose low byte is 0x01 or 0x10..0x2F passes the same way. | the keys are the 33 letters themselves, so only letters are found | low; not executed. Narrowing is one-to-one on the letters, so the size and all lookups of letters are unaffected. Whether a validator consults the index cannot be seen in the header. | NarrowedIndex.SpaceReadsAsEr | Alphabet.AlphaNum |
