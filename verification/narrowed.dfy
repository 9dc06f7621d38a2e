/**
  The reverse index exactly as declared: a `std::map<char,int>` whose keys are
  `char`, filled from an alphabet of `wchar_t` letters. Every letter is
  narrowed to its low byte when it is stored, and every character is narrowed
  the same way when it is looked up.
 */
module NarrowedIndex {
  import opened Alphabet
  import ModAlphaCipher

  /**
    Conversion of a wide character to an 8-bit `char`: its low byte, read in
    two's complement as a signed `char` (as on x86). Every letter's byte is
    below 0x80, so no result about the letters depends on the sign.
   */
  function Narrow(c: char): (b: int)
    ensures -128 <= b < 128
    ensures (b - c as int) % 256 == 0
  {
    var low := c as int % 256;
    if low < 128 then low else low - 256
  }

  /** The byte each letter narrows to: А..Е give 0x10..0x15, Ё gives 0x01, Ж..Я give 0x16..0x2F. */
  lemma NarrowLetter(i: int)
    requires 0 <= i < Size
    ensures Narrow(Letter(i)) == if i == 6 then 0x01 else if i < 6 then 0x10 + i else 0x0F + i
  {
  }

  /** No two letters narrow to the same byte. */
  lemma NarrowInjective(i: int, j: int)
    requires 0 <= i < Size && 0 <= j < Size
    requires Narrow(Letter(i)) == Narrow(Letter(j))
    ensures i == j
  {
    NarrowLetter(i);
    NarrowLetter(j);
  }

  /** True when `m` is the declared map after storing each letter of `letters` under its narrowed byte. */
  predicate NarrowedIndexOf(m: map<int, int>, letters: string) {
    && (forall k :: k in m ==> 0 <= m[k] < |letters| && Narrow(letters[m[k]]) == k)
    && (forall i :: 0 <= i < |letters| ==> Narrow(letters[i]) in m && m[Narrow(letters[i])] == i)
    && |m| == |letters|
  }

  /** One more turn of the loop: the next letter's byte is new, so it adds an entry and disturbs none. */
  lemma NarrowedStep(m: map<int, int>, prefix: string, c: char)
    requires Positioned(prefix + [c]) && NarrowedIndexOf(m, prefix)
    ensures NarrowedIndexOf(m[Narrow(c) := |prefix|], prefix + [c])
  {
    var letters, n := prefix + [c], |prefix|;
    assert letters[n] == c;
    assert Narrow(c) !in m by {
      if Narrow(c) in m {
        var j := m[Narrow(c)];
        assert letters[j] == prefix[j];
        LetterOfPosition(letters[j]);
        LetterOfPosition(c);
        NarrowInjective(j, n);
      }
    }
    forall i | 0 <= i < n
      ensures letters[i] == prefix[i]
    {
    }
  }

  /**
    The constructor's loop over `letters` as it runs on the declared map: each
    letter is stored under its narrowed byte, in order.
   */
  function NarrowedIndex(letters: string): (m: map<int, int>)
    requires Positioned(letters)
    ensures NarrowedIndexOf(m, letters)
  {
    if letters == [] then map[]
    else
      var n := |letters| - 1;
      var prefix := letters[..n];
      assert letters == prefix + [letters[n]];
      assert Positioned(prefix) by {
        forall i | 0 <= i < n
          ensures Position(prefix[i]) == i
        {
          assert prefix[i] == letters[i];
        }
      }
      var m := NarrowedIndex(prefix);
      NarrowedStep(m, prefix, letters[n]);
      m[Narrow(letters[n]) := n]
  }

  /** `alphaNum` as the constructor actually fills it. */
  function NarrowedAlphaNum(): (m: map<int, int>)
    ensures forall k :: k in m ==> 0 <= m[k] < Size && Narrow(NumAlpha[m[k]]) == k
    ensures forall i :: 0 <= i < Size ==> Narrow(NumAlpha[i]) in m && m[Narrow(NumAlpha[i])] == i
    ensures |m| == Size
  {
    LettersPositioned();
    var m := NarrowedIndex(NumAlpha);
    assert NarrowedIndexOf(m, NumAlpha);
    m
  }

  /**
    `alphaNum[c]` as written: the character is narrowed before the lookup; a
    missing key reads as 0. A letter reads as its position, and any character
    whose byte is taken reads as the position of the letter owning that byte.
   */
  function NarrowedLookup(c: char): (r: int)
    ensures 0 <= r < Size
    ensures InAlphabet(c) ==> r == Position(c)
    ensures Narrow(c) in NarrowedAlphaNum() ==> Narrow(NumAlpha[r]) == Narrow(c)
    ensures Narrow(c) !in NarrowedAlphaNum() ==> r == 0
  {
    var m := NarrowedAlphaNum();
    InAlphabetIsMembership(c);
    if Narrow(c) in m then m[Narrow(c)] else 0
  }

  /**
    Narrowing is one-to-one on the 33 letters, so the index as written still
    holds 33 entries (the modulus is unaffected) and agrees with the intended
    index on every letter, hence on every validated text.
   */
  lemma NarrowedAgreesOnLetters(c: char)
    requires InAlphabet(c)
    ensures |NarrowedAlphaNum()| == Size
    ensures NarrowedLookup(c) == ModAlphaCipher.Lookup(c)
  {
    InAlphabetIsMembership(c);
  }

  /** A space is not a letter, and the intended index has no entry for it. */
  lemma SpaceIsNoLetter()
    ensures !InAlphabet(' ') && ' ' !in AlphaNum()
  {
    InAlphabetIsMembership(' ');
  }

  /** Р is the letter at position 17 and narrows to 0x20. */
  lemma ErNarrowsToSpace()
    ensures NumAlpha[17] == 'Р' && Narrow(NumAlpha[17]) == 0x20
  {
    NarrowLetter(17);
  }

  /**
    The discrepancy: a space (U+0020) narrows to 0x20, the key under which Р
    (U+0420, position 17) is stored. The index as written finds the space and
    reads it as Р, although a space is no letter and the intended index has no
    entry for it.
   */
  lemma SpaceReadsAsEr()
    ensures !InAlphabet(' ') && ' ' !in AlphaNum()
    ensures Narrow(' ') in NarrowedAlphaNum() && NarrowedLookup(' ') == 17
    ensures NumAlpha[17] == 'Р'
  {
    SpaceIsNoLetter();
    ErNarrowsToSpace();
    assert Narrow(' ') == 0x20;
  }
}
