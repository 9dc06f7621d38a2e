/**
  The fixed Russian alphabet of the cipher, the reverse index ("number by
  letter") the constructor builds from it, and the upper-casing applied to
  keys and texts before they are checked against the alphabet.
 */
module Alphabet {

  /** The number of letters, and so the modulus of all shift arithmetic. */
  const Size: nat := 33

  /**
    `x` counted round the alphabet: its remainder modulo `Size`, always a
    position. The modulus is written as the literal 33 so that the remainder
    stays a linear operation for the verifier.
   */
  function Wrap(x: int): (r: int)
    ensures 0 <= r < Size
    ensures (r - x) % 33 == 0
  {
    x % 33
  }

  /**
    The letters in cipher order, Ё right after Е, 33 letters in all. They are
    generated from `Letter` so that proofs never unfold the 33-character
    literal; `NumAlphaIsLiteral` shows they are exactly that literal.
   */
  const NumAlpha: string := Letters()

  /** The `Size` letters, each at its code-point position. */
  function Letters(): (s: string)
    ensures |s| == Size
    ensures forall i :: 0 <= i < Size ==> s[i] == Letter(i)
  {
    seq(Size, i requires 0 <= i < Size => Letter(i))
  }

  /**
    The letter at position `i`, computed from Unicode code points: А..Е are
    U+0410..U+0415, Ё is U+0401, and Ж..Я are U+0416..U+042F, each one place
    further on because of Ё.
   */
  function Letter(i: int): char
    requires 0 <= i < Size
  {
    if i < 6 then ('А' as int + i) as char
    else if i == 6 then 'Ё'
    else ('А' as int + i - 1) as char
  }

  /** The position of `c` in the alphabet by code point, or -1 when `c` is not a letter of it. */
  function Position(c: char): (p: int)
    ensures -1 <= p < Size
  {
    if 'А' <= c <= 'Е' then c as int - 'А' as int
    else if c == 'Ё' then 6
    else if 'Ж' <= c <= 'Я' then c as int - 'А' as int + 1
    else -1
  }

  /** `Position` undoes `Letter`. */
  lemma PositionOfLetter(i: int)
    requires 0 <= i < Size
    ensures Position(Letter(i)) == i
  {
  }

  /** `Letter` undoes `Position` on the letters. */
  lemma LetterOfPosition(c: char)
    requires 0 <= Position(c)
    ensures Letter(Position(c)) == c
  {
  }

  /** True when `c` is one of the 33 upper-case letters of the alphabet. */
  predicate InAlphabet(c: char) {
    0 <= Position(c)
  }

  /** True when every character of `s` is a letter of the alphabet. */
  predicate Alphabetic(s: string) {
    forall i :: 0 <= i < |s| ==> InAlphabet(s[i])
  }

  /** True when every element of `v` is a position in the alphabet. */
  predicate InRange(v: seq<int>) {
    forall i :: 0 <= i < |v| ==> 0 <= v[i] < Size
  }

  /** The letters at positions `k..k+|chunk|-1` spell out `chunk`. */
  lemma LettersSpell(k: nat, chunk: string)
    requires k + |chunk| <= Size
    requires forall j :: 0 <= j < |chunk| ==> chunk[j] == Letter(k + j)
    ensures NumAlpha[k..k + |chunk|] == chunk
  {
  }

  /** The generated alphabet is the source's literal, letter for letter (written in four pieces). */
  lemma NumAlphaIsLiteral()
    ensures NumAlpha == "АБВГДЕЁЖ" + "ЗИЙКЛМНО" + "ПРСТУФХЦ" + "ЧШЩЪЫЬЭЮЯ"
  {
    LettersSpell(0, "АБВГДЕЁЖ");
    LettersSpell(8, "ЗИЙКЛМНО");
    LettersSpell(16, "ПРСТУФХЦ");
    LettersSpell(24, "ЧШЩЪЫЬЭЮЯ");
    assert NumAlpha == NumAlpha[0..8] + NumAlpha[8..16] + NumAlpha[16..24] + NumAlpha[24..33];
  }

  /**
    A character is a letter of the alphabet exactly when it occurs in
    `NumAlpha`, and then it occurs at its code-point position.
   */
  lemma InAlphabetIsMembership(c: char)
    ensures InAlphabet(c) <==> c in NumAlpha
    ensures InAlphabet(c) ==> NumAlpha[Position(c)] == c
  {
    if InAlphabet(c) {
      LetterOfPosition(c);
      assert NumAlpha[Position(c)] == c;
    }
    if c in NumAlpha {
      var i :| 0 <= i < |NumAlpha| && NumAlpha[i] == c;
      PositionOfLetter(i);
    }
  }

  /**
    Every letter sits at its code-point position; in particular no letter
    occurs twice, so the alphabet is a bijection between letters and `0..Size-1`.
   */
  lemma LettersPositioned()
    ensures |NumAlpha| == Size
    ensures Positioned(NumAlpha)
  {
    forall i | 0 <= i < Size
      ensures Position(NumAlpha[i]) == i
    {
      PositionOfLetter(i);
    }
  }

  /** True for the lower-case Russian letters а..я and ё. */
  predicate IsLowerLetter(c: char) {
    'а' <= c <= 'я' || c == 'ё'
  }

  /**
    Upper-casing of the lower-case letters of the alphabet, the conversion the
    validators promise: а..я (U+0430..U+044F) move down by 0x20 and ё (U+0451)
    becomes Ё (U+0401). Every other character is left alone. A locale-aware
    `towupper` with Unicode 9.0 data would in addition map the historic forms
    U+1C80..U+1C86 onto В, Д, О, С, Т, Т and Ъ; this table does not.
   */
  function Upper(c: char): (u: char)
    ensures InAlphabet(u) <==> InAlphabet(c) || IsLowerLetter(c)
    ensures InAlphabet(c) ==> u == c
  {
    if 'а' <= c <= 'я' then (c as int - 0x20) as char
    else if c == 'ё' then 'Ё'
    else c
  }

  /** The inverse of `Upper` on the alphabet: А..Я move up by 0x20 and Ё becomes ё. */
  function Lower(c: char): (l: char)
    ensures InAlphabet(c) ==> IsLowerLetter(l)
    ensures !InAlphabet(c) ==> l == c
  {
    if 'А' <= c <= 'Я' then (c as int + 0x20) as char
    else if c == 'Ё' then 'ё'
    else c
  }

  /** Lower-casing first does not change what upper-casing produces. */
  lemma UpperOfLower(c: char)
    ensures Upper(Lower(c)) == Upper(c)
  {
  }

  /**
    True when every character of `s` sits at its code-point position, which
    makes the characters of `s` pairwise distinct.
   */
  predicate Positioned(s: string) {
    forall i :: 0 <= i < |s| ==> Position(s[i]) == i
  }

  /**
    True when `m` is the reverse index of `letters`: its keys are exactly the
    characters with a position below `|letters|` (for a positioned `letters`,
    exactly its letters), each key maps to its position, and letter `i` of
    `letters` is stored under `i`.
   */
  predicate IndexOf(m: map<char, int>, letters: string) {
    && (forall c :: c in m <==> 0 <= Position(c) < |letters|)
    && (forall c :: c in m ==> m[c] == Position(c))
    && (forall i :: 0 <= i < |letters| ==> letters[i] in m && m[letters[i]] == i)
    && |m| == |letters|
  }

  /** One more turn of the constructor's loop: the next letter is new, so it adds one entry and disturbs none. */
  lemma IndexStep(m: map<char, int>, prefix: string, c: char)
    requires Positioned(prefix + [c]) && IndexOf(m, prefix)
    ensures IndexOf(m[c := |prefix|], prefix + [c])
  {
    var letters, n := prefix + [c], |prefix|;
    assert letters[n] == c;
    assert c !in m;
    forall i | 0 <= i < n
      ensures letters[i] == prefix[i]
    {
    }
    forall d | 0 <= Position(d) == n
      ensures d == c
    {
      LetterOfPosition(d);
      LetterOfPosition(c);
    }
  }

  /**
    The reverse index after the constructor's loop has visited every position
    of `letters` in order, each step setting `alphaNum[letters[i]] = i`: the
    index for all but the last letter, then the last letter stored at its
    position.
   */
  function ReverseIndex(letters: string): (m: map<char, int>)
    requires Positioned(letters)
    ensures IndexOf(m, letters)
  {
    if letters == [] then map[]
    else
      var n := |letters| - 1;
      var prefix := letters[..n];
      assert letters == prefix + [letters[n]];
      assert Positioned(prefix) by {
        forall i | 0 <= i < n
          ensures Position(prefix[i]) == i
        {
          assert prefix[i] == letters[i];
        }
      }
      var m := ReverseIndex(prefix);
      IndexStep(m, prefix, letters[n]);
      m[letters[n] := n]
  }

  /**
    The reverse index `alphaNum` as the constructor leaves it: its keys are
    exactly the letters, each maps to its position (so the letter at position
    `i` maps back to `i`), and it has one entry per letter, so its size is the
    modulus.
   */
  function AlphaNum(): (m: map<char, int>)
    ensures forall c :: c in m <==> InAlphabet(c)
    ensures forall c :: c in m ==> m[c] == Position(c)
    ensures |m| == Size
  {
    LettersPositioned();
    var m := ReverseIndex(NumAlpha);
    assert IndexOf(m, NumAlpha);
    m
  }

  /**
    The reverse index inverts the alphabet: the letter at position `i` maps
    back to `i`, and every key maps to the position holding it.
   */
  lemma AlphaNumInvertsAlphabet()
    ensures forall i :: 0 <= i < Size ==> NumAlpha[i] in AlphaNum() && AlphaNum()[NumAlpha[i]] == i
    ensures forall c :: c in AlphaNum() ==> 0 <= AlphaNum()[c] < Size && NumAlpha[AlphaNum()[c]] == c
  {
    LettersPositioned();
    forall c | c in AlphaNum()
      ensures NumAlpha[Position(c)] == c
    {
      InAlphabetIsMembership(c);
    }
  }
}
