/**
  The `modAlphaCipher` class: a Gronsfeld cipher that shifts every letter of a
  text by the alphabet position of the corresponding key letter, the key being
  repeated as often as the text needs, all modulo the size of the alphabet.
 */
module ModAlphaCipher {
  import opened CipherErrors
  import opened Alphabet

  // ---------------------------------------------------------------------------
  // Conversions between texts and index sequences
  // ---------------------------------------------------------------------------

  /**
    `alphaNum[c]`. The subscript operator of `std::map` answers 0 for a key it
    does not hold, so a character outside the alphabet reads as position 0.
   */
  function Lookup(c: char): (k: int)
    ensures 0 <= k < Size
    ensures InAlphabet(c) ==> k == Position(c) && NumAlpha[k] == c
    ensures !InAlphabet(c) ==> k == 0
  {
    if c in AlphaNum() then
      InAlphabetIsMembership(c);
      AlphaNum()[c]
    else
      0
  }

  /** `convert(s)`: the text as the sequence of its letters' alphabet positions, in order. */
  function ToIndices(s: string): (v: seq<int>)
    ensures |v| == |s|
    ensures InRange(v)
    ensures forall i :: 0 <= i < |s| && InAlphabet(s[i]) ==> v[i] == Position(s[i])
  {
    seq(|s|, i requires 0 <= i < |s| => Lookup(s[i]))
  }

  /**
    `convert(v)`: the index sequence as the text of the letters at those
    positions, in order. `numAlpha[i]` is not range-checked in the source, so
    every index must already be a position of the alphabet.
   */
  function ToText(v: seq<int>): (s: string)
    requires InRange(v)
    ensures |s| == |v|
    ensures Alphabetic(s)
    ensures forall i :: 0 <= i < |v| ==> Position(s[i]) == v[i]
  {
    LettersPositioned();
    seq(|v|, i requires 0 <= i < |v| => NumAlpha[v[i]])
  }

  /** Converting an alphabet-only text to indices and back gives the text again. */
  lemma TextRoundTrip(s: string)
    requires Alphabetic(s)
    ensures ToText(ToIndices(s)) == s
  {
    var t := ToText(ToIndices(s));
    forall i | 0 <= i < |s|
      ensures t[i] == s[i]
    {
      InAlphabetIsMembership(s[i]);
      InAlphabetIsMembership(t[i]);
    }
  }

  /** Converting in-range indices to text and back gives the indices again. */
  lemma IndexRoundTrip(v: seq<int>)
    requires InRange(v)
    ensures ToIndices(ToText(v)) == v
  {
  }

  // ---------------------------------------------------------------------------
  // Validation of keys and texts
  // ---------------------------------------------------------------------------

  /** A Russian letter of either case: exactly the characters validation admits. */
  predicate IsRussianLetter(c: char) {
    InAlphabet(c) || IsLowerLetter(c)
  }

  /** True when `s` is non-empty and made of Russian letters only. */
  predicate Admissible(s: string) {
    |s| > 0 && forall i :: 0 <= i < |s| ==> IsRussianLetter(s[i])
  }

  /** Which argument a validator checks; it decides which error is raised. */
  datatype Subject = Key | Text

  /** The error raised for `who` with the given message. */
  function Reject(who: Subject, message: string): (e: CipherError)
    ensures e.InvalidKey? <==> who == Key
  {
    match who
    case Key => InvalidKey(message)
    case Text => InvalidText(message)
  }

  /** Every character upper-cased. */
  function UpperAll(s: string): (u: string)
    ensures |u| == |s|
    ensures forall i :: 0 <= i < |s| ==> u[i] == Upper(s[i])
  {
    seq(|s|, i requires 0 <= i < |s| => Upper(s[i]))
  }

  /** Every character lower-cased. */
  function LowerAll(s: string): (l: string)
    ensures |l| == |s|
    ensures forall i :: 0 <= i < |s| ==> l[i] == Lower(s[i])
  {
    seq(|s|, i requires 0 <= i < |s| => Lower(s[i]))
  }

  /**
    The check shared by `getValidKey` and `getValidText`: an empty string is
    rejected; otherwise every character is upper-cased and a character that is
    then not a letter of the alphabet is rejected. It succeeds exactly on
    non-empty strings of Russian letters, with their upper-cased form.
   */
  function Validate(s: string, who: Subject): (r: Result<string>)
    ensures r.Ok? <==> Admissible(s)
    ensures r.Ok? ==> |r.value| == |s| && Alphabetic(r.value)
    ensures r.Ok? ==> forall i :: 0 <= i < |s| ==> r.value[i] == Upper(s[i])
    ensures r.Err? ==> (r.error.InvalidKey? <==> who == Key)
  {
    if |s| == 0 then
      Err(Reject(who, if who == Key then "Empty key" else "Empty text"))
    else
      var t := UpperAll(s);
      if Alphabetic(t) then Ok(t)
      else Err(Reject(who, if who == Key then "Invalid key" else "Invalid text"))
  }

  /** `getValidKey`: a non-empty key of Russian letters, upper-cased, or `InvalidKey`. */
  function GetValidKey(s: string): (r: Result<string>)
    ensures r.Ok? <==> Admissible(s)
    ensures r.Ok? ==> |r.value| == |s| && Alphabetic(r.value)
    ensures r.Ok? ==> forall i :: 0 <= i < |s| ==> r.value[i] == Upper(s[i])
    ensures r.Err? ==> r.error.InvalidKey?
  {
    Validate(s, Key)
  }

  /** `getValidText`: a non-empty text of Russian letters, upper-cased, or `InvalidText`. */
  function GetValidText(s: string): (r: Result<string>)
    ensures r.Ok? <==> Admissible(s)
    ensures r.Ok? ==> |r.value| == |s| && Alphabetic(r.value)
    ensures r.Ok? ==> forall i :: 0 <= i < |s| ==> r.value[i] == Upper(s[i])
    ensures r.Err? ==> r.error.InvalidText?
  {
    Validate(s, Text)
  }

  /** A string that already passed validation passes again unchanged. */
  lemma ValidateIdempotent(s: string, who: Subject)
    requires Validate(s, who).Ok?
    ensures Validate(Validate(s, who).value, who) == Validate(s, who)
  {
    var t := Validate(s, who).value;
    ValidateAlphabetic(t, who);
  }

  /** A non-empty alphabet-only string is accepted as it is. */
  lemma ValidateAlphabetic(s: string, who: Subject)
    requires |s| > 0 && Alphabetic(s)
    ensures Validate(s, who) == Ok(s)
  {
    assert UpperAll(s) == s;
  }

  /**
    The historic Cyrillic form U+1C80 (rounded ve) is not a Russian letter:
    upper-casing leaves it alone and validation rejects it, although a
    `towupper` with Unicode 9.0 data would turn it into В.
   */
  lemma HistoricFormRejected(who: Subject)
    ensures !IsRussianLetter('\U{1C80}') && Upper('\U{1C80}') == '\U{1C80}'
    ensures Validate("\U{1C80}", who).Err?
  {
    assert !Admissible("\U{1C80}") by {
      assert "\U{1C80}"[0] == '\U{1C80}';
    }
  }

  /** Lower-casing the input first changes nothing: validation ignores case. */
  lemma ValidateIgnoresCase(s: string, who: Subject)
    ensures Validate(LowerAll(s), who) == Validate(s, who)
  {
    var l := LowerAll(s);
    forall i | 0 <= i < |s|
      ensures Upper(l[i]) == Upper(s[i])
    {
      UpperOfLower(s[i]);
    }
    assert UpperAll(l) == UpperAll(s);
  }

  // ---------------------------------------------------------------------------
  // Shift arithmetic
  // ---------------------------------------------------------------------------

  /** 2^64: `alphaNum.size()` is a `std::size_t`, whose arithmetic wraps modulo this. */
  const Word: nat := 0x1_0000_0000_0000_0000

  /** Conversion of an `int` to `std::size_t`: reduction modulo 2^64. */
  function Unsigned(x: int): (u: nat)
    ensures u < Word
    ensures (u - x) % Word == 0
    ensures 0 <= x < Word ==> u == x
  {
    x % Word
  }

  /**
    One step of the encryption loop, `(work[i] + key[j]) % alphaNum.size()`:
    the `int` sum is converted to `size_t` before the remainder. No wrap-around
    can happen, so it is the plain sum of the two positions modulo the alphabet.
   */
  function EncryptStep(w: int, k: int): (r: int)
    requires 0 <= w < Size && 0 <= k < Size
    ensures r == Wrap(w + k)
    ensures r == if w + k < Size then w + k else w + k - Size
  {
    Wrap(Unsigned(w + k))
  }

  /**
    One step of the decryption loop, `(work[i] + alphaNum.size() - key[j]) %
    alphaNum.size()`, evaluated in `size_t`. Adding the modulus before
    subtracting keeps the intermediate value positive, so nothing wraps and the
    result is the difference of the two positions modulo the alphabet.
   */
  function DecryptStep(w: int, k: int): (r: int)
    requires 0 <= w < Size && 0 <= k < Size
    ensures r == Wrap(w - k)
    ensures r == if k <= w then w - k else w - k + Size
  {
    Wrap(Unsigned(Unsigned(Unsigned(w) + Size) - Unsigned(k)))
  }

  /**
    Why the modulus is added first: without it, `0 - 1` in `size_t` wraps to
    2^64 - 1, whose remainder modulo 33 is 15, not the intended 32.
   */
  lemma SubtractingFirstWouldWrap()
    ensures Wrap(Unsigned(Unsigned(0) - Unsigned(1))) == 15
    ensures Wrap(0 - 1) == 32
  {
  }

  /** A step of decryption undoes the same step of encryption, and the other way round. */
  lemma StepsCancel(w: int, k: int)
    requires 0 <= w < Size && 0 <= k < Size
    ensures DecryptStep(EncryptStep(w, k), k) == w
    ensures EncryptStep(DecryptStep(w, k), k) == w
  {
  }

  /** The key element used at text position `i`: the key is reused cyclically, `key[i mod |key|]`. */
  function KeyAt(key: seq<int>, i: int): (k: int)
    requires |key| > 0 && 0 <= i
    ensures i < |key| ==> k == key[i]
    ensures InRange(key) ==> 0 <= k < Size
  {
    key[i % |key|]
  }

  /** The key written out end to end until it covers `n` positions: [1,2,3] over 5 gives [1,2,3,1,2]. */
  function RepeatKey(key: seq<int>, n: nat): (r: seq<int>)
    requires |key| > 0
    ensures |r| == n
    decreases n
  {
    if n <= |key| then key[..n] else key + RepeatKey(key, n - |key|)
  }

  /** Position `i` of the repeated key is key letter `i mod |key|`. */
  lemma {:induction false} RepeatKeyAt(key: seq<int>, n: nat, i: int)
    requires |key| > 0 && 0 <= i < n
    ensures RepeatKey(key, n)[i] == KeyAt(key, i)
    decreases n
  {
    if n <= |key| {
      assert i % |key| == i;
    } else if i < |key| {
      assert i % |key| == i;
    } else {
      RepeatKeyAt(key, n - |key|, i - |key|);
      ModShift(i, |key|);
    }
  }

  /** A positive multiple of a positive `m` is at least `m`. */
  lemma MulAtLeast(d: int, m: int)
    requires d >= 1 && m > 0
    ensures d * m >= m
  {
    assert d * m == (d - 1) * m + m;
    assert (d - 1) * m >= 0;
  }

  /** The remainder is the unique `r` in `[0, m)` with `x == q * m + r`. */
  lemma ModUnique(x: int, m: int, q: int, r: int)
    requires m > 0 && 0 <= r < m && x == q * m + r
    ensures x % m == r
  {
    var q0, r0 := x / m, x % m;
    assert x == q0 * m + r0;
    var d := q - q0;
    assert d * m == q * m - q0 * m;
    assert d * m == r0 - r;
    if d >= 1 {
      MulAtLeast(d, m);
    } else if d <= -1 {
      MulAtLeast(-d, m);
    }
  }

  /** Subtracting the modulus once does not change a remainder. */
  lemma ModShift(i: int, m: int)
    requires 0 < m <= i
    ensures (i - m) % m == i % m
  {
    var q, r := i / m, i % m;
    assert i == q * m + r;
    assert i - m == (q - 1) * m + r;
    ModUnique(i - m, m, q - 1, r);
  }

  /** The encryption loop over a whole index sequence, the key reused cyclically. */
  function EncryptIndices(work: seq<int>, key: seq<int>): (r: seq<int>)
    requires InRange(work) && |key| > 0 && InRange(key)
    ensures |r| == |work| && InRange(r)
    ensures forall i :: 0 <= i < |work| ==> r[i] == Wrap(work[i] + KeyAt(key, i))
  {
    seq(|work|, i requires 0 <= i < |work| => EncryptStep(work[i], KeyAt(key, i)))
  }

  /** The decryption loop over a whole index sequence, the key reused cyclically. */
  function DecryptIndices(work: seq<int>, key: seq<int>): (r: seq<int>)
    requires InRange(work) && |key| > 0 && InRange(key)
    ensures |r| == |work| && InRange(r)
    ensures forall i :: 0 <= i < |work| ==> r[i] == Wrap(work[i] - KeyAt(key, i))
  {
    seq(|work|, i requires 0 <= i < |work| => DecryptStep(work[i], KeyAt(key, i)))
  }

  /**
    Encryption adds the key repeated end to end: position `i` is shifted by
    element `i` of `RepeatKey`, so a text longer than the key starts over with
    the key's first letter at position `|key|`.
   */
  lemma EncryptAddsRepeatedKey(work: seq<int>, key: seq<int>)
    requires InRange(work) && |key| > 0 && InRange(key)
    ensures forall i :: 0 <= i < |work| ==>
      EncryptIndices(work, key)[i] == Wrap(work[i] + RepeatKey(key, |work|)[i])
  {
    forall i | 0 <= i < |work|
      ensures RepeatKey(key, |work|)[i] == KeyAt(key, i)
    {
      RepeatKeyAt(key, |work|, i);
    }
  }

  /** Decryption of index sequences undoes encryption with the same key, and the other way round. */
  lemma IndicesRoundTrip(work: seq<int>, key: seq<int>)
    requires InRange(work) && |key| > 0 && InRange(key)
    ensures DecryptIndices(EncryptIndices(work, key), key) == work
    ensures EncryptIndices(DecryptIndices(work, key), key) == work
  {
    forall i | 0 <= i < |work|
      ensures DecryptIndices(EncryptIndices(work, key), key)[i] == work[i]
      ensures EncryptIndices(DecryptIndices(work, key), key)[i] == work[i]
    {
      StepsCancel(work[i], KeyAt(key, i));
    }
  }

  // ---------------------------------------------------------------------------
  // The cipher object
  // ---------------------------------------------------------------------------

  /**
    A constructed `modAlphaCipher`: its key as shifts. The reverse index and
    the alphabet are the same for every instance (`AlphaNum`, `NumAlpha`).
   */
  datatype Cipher = Cipher(key: seq<int>)

  /** The invariant construction establishes: a non-empty key of alphabet positions. */
  predicate ValidCipher(c: Cipher) {
    |c.key| > 0 && InRange(c.key)
  }

  /**
    The constructor. The header shows only its index loop (`ReverseIndex`);
    how the key word becomes the `key` attribute is reconstructed here as
    `convert(getValidKey(skey))`, from the `key` attribute's type and the
    validator's description. It succeeds exactly on non-empty keys of Russian
    letters, and then key element `i` is the alphabet position of the
    upper-cased key letter `i`.
   */
  function New(skey: string): (r: Result<Cipher>)
    ensures r.Ok? <==> Admissible(skey)
    ensures r.Err? ==> r.error.InvalidKey?
    ensures r.Ok? ==> ValidCipher(r.value) && |r.value.key| == |skey|
    ensures r.Ok? ==> forall i :: 0 <= i < |skey| ==> r.value.key[i] == Position(Upper(skey[i]))
  {
    var k :- GetValidKey(skey);
    Ok(Cipher(ToIndices(k)))
  }

  /**
    `encrypt(open_text)`: validate, convert to indices, shift each position by
    the cyclically reused key, convert back. It rejects exactly what
    `getValidText` rejects. That letter `i` of the result sits `key[i mod
    |key|]` places after the upper-cased letter `i` of the text is stated by
    `EncryptShiftsEachLetter`.
   */
  function Encrypt(c: Cipher, openText: string): (r: Result<string>)
    requires ValidCipher(c)
    ensures r.Ok? <==> Admissible(openText)
    ensures r.Err? ==> r.error.InvalidText?
    ensures r.Ok? ==> |r.value| == |openText| && Alphabetic(r.value)
  {
    var text :- GetValidText(openText);
    Ok(ToText(EncryptIndices(ToIndices(text), c.key)))
  }

  /**
    Letter `i` of the result of `encrypt` sits `key[i mod |key|]` places after the
    upper-cased letter `i` of the input, counting round the alphabet.
   */
  lemma EncryptShiftsEachLetter(c: Cipher, t: string, i: int)
    requires ValidCipher(c) && Admissible(t) && 0 <= i < |t|
    ensures Encrypt(c, t).Ok? && |Encrypt(c, t).value| == |t|
    ensures Position(Encrypt(c, t).value[i]) == Wrap(Position(Upper(t[i])) + KeyAt(c.key, i))
  {
    var text := GetValidText(t).value;
    var work := ToIndices(text);
    var shifted := EncryptIndices(work, c.key);
    assert Encrypt(c, t) == Ok(ToText(shifted));
    assert text[i] == Upper(t[i]);
    assert work[i] == Position(text[i]);
    assert Position(ToText(shifted)[i]) == shifted[i];
  }

  /**
    `decrypt(cipher_text)`: as `encrypt`, but each position is shifted back by
    the key. That letter `i` of the result sits `key[i mod |key|]` places
    before the upper-cased letter `i` of the text is stated by
    `DecryptShiftsEachLetter`.
   */
  function Decrypt(c: Cipher, cipherText: string): (r: Result<string>)
    requires ValidCipher(c)
    ensures r.Ok? <==> Admissible(cipherText)
    ensures r.Err? ==> r.error.InvalidText?
    ensures r.Ok? ==> |r.value| == |cipherText| && Alphabetic(r.value)
  {
    var text :- GetValidText(cipherText);
    Ok(ToText(DecryptIndices(ToIndices(text), c.key)))
  }

  /**
    Letter `i` of the result of `decrypt` sits `key[i mod |key|]` places before the
    upper-cased letter `i` of the input, counting round the alphabet.
   */
  lemma DecryptShiftsEachLetter(c: Cipher, t: string, i: int)
    requires ValidCipher(c) && Admissible(t) && 0 <= i < |t|
    ensures Decrypt(c, t).Ok? && |Decrypt(c, t).value| == |t|
    ensures Position(Decrypt(c, t).value[i]) == Wrap(Position(Upper(t[i])) - KeyAt(c.key, i))
  {
    var text := GetValidText(t).value;
    var work := ToIndices(text);
    var shifted := DecryptIndices(work, c.key);
    assert Decrypt(c, t) == Ok(ToText(shifted));
    assert text[i] == Upper(t[i]);
    assert work[i] == Position(text[i]);
    assert Position(ToText(shifted)[i]) == shifted[i];
  }

  /** Decrypting an encryption gives back the validated, upper-cased text. */
  lemma DecryptEncrypt(c: Cipher, t: string)
    requires ValidCipher(c) && Admissible(t)
    ensures Encrypt(c, t).Ok?
    ensures Decrypt(c, Encrypt(c, t).value) == GetValidText(t)
  {
    var text := GetValidText(t).value;
    var work := ToIndices(text);
    var e := EncryptIndices(work, c.key);
    var ct := ToText(e);
    assert Encrypt(c, t) == Ok(ct);
    ValidateAlphabetic(ct, Text);
    IndexRoundTrip(e);
    IndicesRoundTrip(work, c.key);
    TextRoundTrip(text);
  }

  /** Encrypting a decryption gives back the validated, upper-cased text. */
  lemma EncryptDecrypt(c: Cipher, t: string)
    requires ValidCipher(c) && Admissible(t)
    ensures Decrypt(c, t).Ok?
    ensures Encrypt(c, Decrypt(c, t).value) == GetValidText(t)
  {
    var text := GetValidText(t).value;
    var work := ToIndices(text);
    var d := DecryptIndices(work, c.key);
    var pt := ToText(d);
    assert Decrypt(c, t) == Ok(pt);
    ValidateAlphabetic(pt, Text);
    IndexRoundTrip(d);
    IndicesRoundTrip(work, c.key);
    TextRoundTrip(text);
  }

  /** Lower-case keys and texts are treated exactly like their upper-case forms. */
  lemma CipherIgnoresCase(skey: string, t: string)
    ensures New(LowerAll(skey)) == New(skey)
    ensures forall c :: ValidCipher(c) ==> Encrypt(c, LowerAll(t)) == Encrypt(c, t)
    ensures forall c :: ValidCipher(c) ==> Decrypt(c, LowerAll(t)) == Decrypt(c, t)
  {
    ValidateIgnoresCase(skey, Key);
    ValidateIgnoresCase(t, Text);
  }

  /** A key of only `А` shifts nothing: encryption returns the validated text. */
  lemma ZeroKeyIsIdentity(c: Cipher, t: string)
    requires ValidCipher(c) && forall i :: 0 <= i < |c.key| ==> c.key[i] == 0
    requires Admissible(t)
    ensures Encrypt(c, t) == GetValidText(t)
  {
    var text := GetValidText(t).value;
    var work := ToIndices(text);
    var shifted := EncryptIndices(work, c.key);
    forall i | 0 <= i < |work|
      ensures shifted[i] == work[i]
    {
      assert KeyAt(c.key, i) == 0;
    }
    assert shifted == work;
    TextRoundTrip(text);
  }

  /** Two alphabet-only texts with the same letter positions are the same text. */
  lemma SamePositionsSameText(a: string, b: string)
    requires Alphabetic(a) && Alphabetic(b) && |a| == |b|
    requires forall i :: 0 <= i < |a| ==> Position(a[i]) == Position(b[i])
    ensures a == b
  {
    forall i | 0 <= i < |a|
      ensures a[i] == b[i]
    {
      InAlphabetIsMembership(a[i]);
      InAlphabetIsMembership(b[i]);
    }
  }

  /** An upper-case key is turned into exactly the positions of its letters. */
  lemma NewYields(skey: string, shifts: seq<int>)
    requires |skey| == |shifts| > 0 && Alphabetic(skey)
    requires forall i :: 0 <= i < |skey| ==> Position(skey[i]) == shifts[i]
    ensures New(skey) == Ok(Cipher(shifts))
  {
    ValidateAlphabetic(skey, Key);
    assert ToIndices(skey) == shifts;
  }

  /** In-range indices convert to exactly the alphabet-only text whose positions they are. */
  lemma ToTextOf(v: seq<int>, out: string)
    requires InRange(v) && Alphabetic(out) && |out| == |v|
    requires forall i :: 0 <= i < |v| ==> Position(out[i]) == v[i]
    ensures ToText(v) == out
  {
    SamePositionsSameText(ToText(v), out);
  }

  /** The conversion, shift and conversion back inside `encrypt`, pinned down letter by letter. */
  lemma EncryptedTextIs(t: string, key: seq<int>, out: string)
    requires |key| > 0 && InRange(key) && Alphabetic(t) && Alphabetic(out) && |out| == |t|
    requires forall i :: 0 <= i < |t| ==> Position(out[i]) == Wrap(Position(t[i]) + KeyAt(key, i))
    ensures ToText(EncryptIndices(ToIndices(t), key)) == out
  {
    var work := ToIndices(t);
    var shifted := EncryptIndices(work, key);
    forall i | 0 <= i < |t|
      ensures shifted[i] == Position(out[i])
    {
      assert work[i] == Position(t[i]);
    }
    ToTextOf(shifted, out);
  }

  /** The conversion, shift and conversion back inside `decrypt`, pinned down letter by letter. */
  lemma DecryptedTextIs(t: string, key: seq<int>, out: string)
    requires |key| > 0 && InRange(key) && Alphabetic(t) && Alphabetic(out) && |out| == |t|
    requires forall i :: 0 <= i < |t| ==> Position(out[i]) == Wrap(Position(t[i]) - KeyAt(key, i))
    ensures ToText(DecryptIndices(ToIndices(t), key)) == out
  {
    var work := ToIndices(t);
    var shifted := DecryptIndices(work, key);
    forall i | 0 <= i < |t|
      ensures shifted[i] == Position(out[i])
    {
      assert work[i] == Position(t[i]);
    }
    ToTextOf(shifted, out);
  }

  /**
    `encrypt` is pinned down by the per-letter shift: an upper-case text and a
    candidate of the same length whose letters sit `key[i mod |key|]` places
    further on are related by `Encrypt`.
   */
  lemma EncryptYields(c: Cipher, t: string, out: string)
    requires ValidCipher(c) && |t| > 0 && Alphabetic(t) && Alphabetic(out) && |out| == |t|
    requires forall i :: 0 <= i < |t| ==> Position(out[i]) == Wrap(Position(t[i]) + KeyAt(c.key, i))
    ensures Encrypt(c, t) == Ok(out)
  {
    ValidateAlphabetic(t, Text);
    EncryptedTextIs(t, c.key, out);
  }

  /** `decrypt` is pinned down by the per-letter shift, as `encrypt` is. */
  lemma DecryptYields(c: Cipher, t: string, out: string)
    requires ValidCipher(c) && |t| > 0 && Alphabetic(t) && Alphabetic(out) && |out| == |t|
    requires forall i :: 0 <= i < |t| ==> Position(out[i]) == Wrap(Position(t[i]) - KeyAt(c.key, i))
    ensures Decrypt(c, t) == Ok(out)
  {
    ValidateAlphabetic(t, Text);
    DecryptedTextIs(t, c.key, out);
  }

  /**
    The letters of the worked example: Б, В, Г sit at positions 1, 2, 3, and
    under the shifts 1, 2, 3 each letter of АААА is the letter of БВГБ moved
    back, and each letter of БВГБ the letter of АААА moved on.
   */
  lemma ExampleLetters()
    ensures Alphabetic("БВГ") && forall i :: 0 <= i < 3 ==> Position("БВГ"[i]) == [1, 2, 3][i]
    ensures Alphabetic("АААА") && Alphabetic("БВГБ")
    ensures forall i :: 0 <= i < 4 ==> Position("БВГБ"[i]) == Wrap(Position("АААА"[i]) + KeyAt([1, 2, 3], i))
    ensures forall i :: 0 <= i < 4 ==> Position("АААА"[i]) == Wrap(Position("БВГБ"[i]) - KeyAt([1, 2, 3], i))
  {
    var key, plain, secret := [1, 2, 3], "АААА", "БВГБ";
    forall i | 0 <= i < 4
      ensures Position(secret[i]) == Wrap(Position(plain[i]) + KeyAt(key, i))
      ensures Position(plain[i]) == Wrap(Position(secret[i]) - KeyAt(key, i))
    {
      if i == 0 {
        assert plain[i] == 'А' && secret[i] == 'Б';
      } else if i == 1 {
        assert plain[i] == 'А' && secret[i] == 'В';
      } else if i == 2 {
        assert plain[i] == 'А' && secret[i] == 'Г';
      } else {
        assert plain[i] == 'А' && secret[i] == 'Б';
      }
    }
  }

  /** The worked example, key side: the key БВГ becomes the shifts 1, 2, 3. */
  lemma ExampleKey()
    ensures New("БВГ") == Ok(Cipher([1, 2, 3]))
  {
    ExampleLetters();
    NewYields("БВГ", [1, 2, 3]);
  }

  /**
    The worked example, encryption: under the shifts 1, 2, 3 the text АААА
    becomes БВГБ, the fourth letter reusing the first shift.
   */
  lemma ExampleEncrypt()
    ensures Encrypt(Cipher([1, 2, 3]), "АААА") == Ok("БВГБ")
  {
    ExampleLetters();
    EncryptYields(Cipher([1, 2, 3]), "АААА", "БВГБ");
  }

  /** The worked example, decryption: under the shifts 1, 2, 3 the text БВГБ becomes АААА again. */
  lemma ExampleDecrypt()
    ensures Decrypt(Cipher([1, 2, 3]), "БВГБ") == Ok("АААА")
  {
    ExampleLetters();
    DecryptYields(Cipher([1, 2, 3]), "БВГБ", "АААА");
  }
}
