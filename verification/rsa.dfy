/** Textbook RSA on single letters (hw3.js): key generation with the page's
    validation, the A–Z ↔ 0–25 letter code, per-letter encryption with `-1`
    for every other character, and decryption that copies those characters
    back from the original text. */
module Rsa {
  import opened Wrappers
  import opened Arith
  import opened NumberTheory
  import opened Fermat
  import opened JsText

  /** The page's key state: the primes, modulus, totient and both exponents. */
  datatype KeyPair = KeyPair(p: nat, q: nat, n: nat, phi: nat, e: nat, d: nat)

  /** Why key generation refused its inputs; `InvalidExponent` carries the user's `e`. */
  datatype KeyError = PNotPrime | QNotPrime | SamePrimes | InvalidExponent(e: int)

  /** A key pair for which textbook RSA is correct. */
  ghost predicate ValidKey(k: KeyPair) {
    && Prime(k.p) && Prime(k.q) && k.p != k.q
    && k.n == k.p * k.q && k.phi == (k.p - 1) * (k.q - 1)
    && k.phi > 1 && (k.e * k.d) % k.phi == 1
  }

  /** The public exponents tried, in order, when the user leaves `e` blank. */
  const ExponentCandidates: seq<nat> := [3, 5, 7, 11, 13, 17, 19, 23, 29, 31]

  predicate Usable(c: nat, phi: nat) {
    c < phi && Gcd(c, phi) == 1
  }

  /** `Array.prototype.find` over the candidates: the index of the first usable one. */
  function FirstUsable(cs: seq<nat>, phi: nat): (r: Option<nat>)
    ensures r.Some? ==> r.value < |cs| && Usable(cs[r.value], phi)
    ensures r.Some? ==> forall j :: 0 <= j < r.value ==> !Usable(cs[j], phi)
    ensures r.None? <==> forall j :: 0 <= j < |cs| ==> !Usable(cs[j], phi)
  {
    if cs == [] then None
    else if Usable(cs[0], phi) then Some(0)
    else match FirstUsable(cs[1..], phi)
      case None => None
      case Some(i) => Some(i + 1)
  }

  /** The automatically chosen exponent; `3` when no candidate is usable. */
  function AutoExponent(phi: nat): (e: nat)
    ensures e in ExponentCandidates
    ensures FirstUsable(ExponentCandidates, phi).Some? ==> Usable(e, phi)
    ensures FirstUsable(ExponentCandidates, phi).None? ==> e == 3
  {
    match FirstUsable(ExponentCandidates, phi)
    case None => 3
    case Some(i) => ExponentCandidates[i]
  }

  /** A user's exponent is accepted exactly when `1 < e < φ` and `gcd(e, φ) = 1`. */
  predicate AcceptableExponent(e: int, phi: nat) {
    1 < e < phi && Gcd(e, phi) == 1
  }

  /** `generateRSAKeys`, after the primes and the optional exponent have been
      parsed: validation in the page's order, then `n`, `φ`, `e` and `d`. */
  method GenerateKeys(p: int, q: int, userE: Option<int>) returns (r: Result<KeyPair, KeyError>)
    ensures r == Failure(PNotPrime) <==> !Prime(p)
    ensures r == Failure(QNotPrime) <==> Prime(p) && !Prime(q)
    ensures r == Failure(SamePrimes) <==> Prime(p) && Prime(q) && p == q
    ensures (r.Failure? && r.error.InvalidExponent?) <==>
      Prime(p) && Prime(q) && p != q && userE.Some?
      && !AcceptableExponent(userE.value, (p - 1) * (q - 1))
    ensures r.Failure? && r.error.InvalidExponent? ==> r.error.e == userE.value
    ensures r.Success? ==>
      && r.value.p == p && r.value.q == q
      && r.value.n == p * q && r.value.phi == (p - 1) * (q - 1)
      && r.value.e == (if userE.Some? then userE.value else AutoExponent(r.value.phi))
      && r.value.d < r.value.phi
    ensures r.Success? && Gcd(r.value.e, r.value.phi) == 1 ==> ValidKey(r.value)
    ensures r.Success? && userE.Some? ==> ValidKey(r.value)
  {
    if !IsPrime(p) {
      return Failure(PNotPrime);
    }
    if !IsPrime(q) {
      return Failure(QNotPrime);
    }
    if p == q {
      return Failure(SamePrimes);
    }
    var n := p * q;
    var phi := (p - 1) * (q - 1);
    TotientAtLeastTwo(p, q);
    var e: nat;
    if userE.Some? {
      if !AcceptableExponent(userE.value, phi) {
        return Failure(InvalidExponent(userE.value));
      }
      e := userE.value;
    } else {
      e := AutoExponent(phi);
    }
    var d := ModInverse(e, phi);
    r := Success(KeyPair(p, q, n, phi, e, d));
  }

  lemma TotientAtLeastTwo(p: int, q: int)
    requires Prime(p) && Prime(q) && p != q
    ensures (p - 1) * (q - 1) >= 2
  {
    if p < q {
      MulAtLeast(p - 1, q - 1);
    } else {
      MulAtLeast(q - 1, p - 1);
    }
  }

  /** `letterToNumber`: upper-case, then subtract the code of `A`. */
  function LetterToNumber(c: CodeUnit): (m: int)
    ensures IsAsciiLetter(c) <==> 0 <= m < 26
  {
    UpperUnit(c) - 'A' as int
  }

  /** `numberToLetter`: `String.fromCharCode(m + 65)`, which keeps the low 16 bits. */
  function NumberToLetter(m: int): (c: CodeUnit)
    ensures 0 <= m < 26 ==> IsUpperLetter(c)
  {
    (m + 'A' as int) % 0x1_0000
  }

  /** The letter code round-trips both ways, case-insensitively. */
  lemma LetterCodeRoundTrip(c: CodeUnit, m: int)
    ensures IsAsciiLetter(c) ==> NumberToLetter(LetterToNumber(c)) == UpperUnit(c)
    ensures 0 <= m < 26 ==> LetterToNumber(NumberToLetter(m)) == m
  {
  }

  /** The ciphertext of one character: `-1` for a non-letter, `mᵉ mod n` for a letter. */
  function EncryptUnit(c: CodeUnit, e: nat, n: nat): (x: int)
    requires n > 0
    ensures !IsAsciiLetter(c) ==> x == -1
    ensures IsAsciiLetter(c) ==> 0 <= x < n && x == Pow(LetterToNumber(c), e) % n
  {
    if IsAsciiLetter(c) then ModPow(LetterToNumber(c), e, n) else -1
  }

  /** The ciphertext of one code point the loop visits: a surrogate pair is
      no ASCII letter, so it becomes `-1` like every other non-letter. */
  function EncryptChar(ch: Text, e: nat, n: nat): (x: int)
    requires n > 0
    ensures -1 <= x < n
    ensures |ch| != 1 ==> x == -1
  {
    if |ch| == 1 then EncryptUnit(ch[0], e, n) else -1
  }

  /** The encryption loop of `encryptMessage`, `for (const char of
      plaintext)`: one number per code point, consuming a surrogate pair at
      once. */
  function Encrypt(text: Text, e: nat, n: nat): (cs: seq<int>)
    requires n > 0
    ensures |cs| == |CodePoints(text)|
    ensures forall i :: 0 <= i < |cs| ==> cs[i] == EncryptChar(CodePoints(text)[i], e, n)
    ensures forall i :: 0 <= i < |cs| ==> -1 <= cs[i] < n
    decreases |text|
  {
    if text == [] then []
    else
      var k := if PairAt(text, 0) then 2 else 1;
      var rest := Encrypt(text[k..], e, n);
      var cs := [if k == 2 then -1 else EncryptUnit(text[0], e, n)] + rest;
      var cps := CodePoints(text);
      assert cps == [text[..k]] + CodePoints(text[k..]);
      assert cs[0] == EncryptChar(cps[0], e, n);
      assert forall i :: 1 <= i < |cs| ==> cs[i] == rest[i - 1] && cps[i] == CodePoints(text[k..])[i - 1];
      cs
  }

  /** Text without surrogate pairs is encrypted one code unit at a time. */
  lemma EncryptPerUnit(text: Text, e: nat, n: nat)
    requires n > 0 && NoSurrogatePairs(text)
    ensures |Encrypt(text, e, n)| == |text|
    ensures forall i :: 0 <= i < |text| ==> Encrypt(text, e, n)[i] == EncryptUnit(text[i], e, n)
  {
    CodePointsPerUnit(text);
  }

  /** JavaScript's `"" + undefined`, appended when the original text is too short. */
  function UndefinedText(): (t: Text)
    ensures |t| == 9
  {
    Units("undefined")
  }

  /** What `decryptWithKey` appends for the ciphertext entry at position `i`. */
  function DecryptUnit(c: int, i: nat, d: nat, n: nat, original: Text): (t: Text)
    requires n > 0 && c >= -1
    ensures c == -1 && i < |original| ==> t == [original[i]]
    ensures c == -1 && i >= |original| ==> t == UndefinedText()
    ensures c >= 0 ==> t == [NumberToLetter(Pow(c, d) % n)]
  {
    if c == -1 then
      if i < |original| then [original[i]] else UndefinedText()
    else
      [NumberToLetter(ModPow(c, d, n))]
  }

  /** `decryptWithKey`: the pieces for every ciphertext entry, concatenated in order. */
  function DecryptWithKey(cipher: seq<int>, d: nat, n: nat, original: Text): (t: Text)
    requires n > 0
    requires forall i :: 0 <= i < |cipher| ==> cipher[i] >= -1
    ensures |cipher| <= |original| ==> |t| == |cipher|
    ensures |cipher| <= |original| ==> forall i :: 0 <= i < |cipher| ==>
      t[i] == DecryptUnit(cipher[i], i, d, n, original)[0]
    decreases |cipher|
  {
    if cipher == [] then []
    else
      var k := |cipher| - 1;
      DecryptWithKey(cipher[..k], d, n, original) + DecryptUnit(cipher[k], k, d, n, original)
  }

  /** Decrypting one encrypted letter with a valid key gives the letter back,
      upper-cased, as long as every letter code is below the modulus. */
  lemma DecryptEncryptUnit(k: KeyPair, c: CodeUnit)
    requires ValidKey(k) && k.n > 25
    requires IsAsciiLetter(c)
    ensures NumberToLetter(Pow(EncryptUnit(c, k.e, k.n), k.d) % k.n) == UpperUnit(c)
  {
    var m := LetterToNumber(c);
    PowMod(Pow(m, k.e), k.d, k.n);
    PowMul(m, k.e, k.d);
    RsaIdentity(k.p, k.q, k.e, k.d, m);
  }

  /** Round trip: with a validly generated key and `n > 25`, decrypting the
      encryption of a text (against that same text) yields the text
      upper-cased exactly when the text has no surrogate pair. Otherwise the
      ciphertext has fewer entries than the text has code units, one per code
      point, and the decryption, one unit per entry, comes out shorter. */
  lemma DecryptEncrypt(k: KeyPair, text: Text)
    requires ValidKey(k) && k.n > 25
    ensures DecryptWithKey(Encrypt(text, k.e, k.n), k.d, k.n, text) == Upper(text) <==> NoSurrogatePairs(text)
  {
    if NoSurrogatePairs(text) {
      DecryptEncryptPerUnit(k, text);
    } else {
      DecryptEncryptShort(k, text);
    }
  }

  lemma DecryptEncryptPerUnit(k: KeyPair, text: Text)
    requires ValidKey(k) && k.n > 25 && NoSurrogatePairs(text)
    ensures DecryptWithKey(Encrypt(text, k.e, k.n), k.d, k.n, text) == Upper(text)
  {
    var cs := Encrypt(text, k.e, k.n);
    EncryptPerUnit(text, k.e, k.n);
    var t := DecryptWithKey(cs, k.d, k.n, text);
    forall i | 0 <= i < |text|
      ensures t[i] == Upper(text)[i]
    {
      if IsAsciiLetter(text[i]) {
        DecryptEncryptUnit(k, text[i]);
      }
    }
  }

  lemma DecryptEncryptShort(k: KeyPair, text: Text)
    requires ValidKey(k) && k.n > 25 && !NoSurrogatePairs(text)
    ensures |DecryptWithKey(Encrypt(text, k.e, k.n), k.d, k.n, text)| < |text|
  {
    CodePointsPerUnit(text);
  }

  /** `"😀ab!"`: a supplementary-plane character, two letters and a `!`. */
  const AstralText: Text := [0xD83D, 0xDE00, 0x61, 0x62, 0x21]

  /** One turn of the encryption loop: the first code point's number, then
      the rest. */
  lemma EncryptStep(text: Text, e: nat, n: nat)
    requires n > 0 && text != []
    ensures PairAt(text, 0) ==> Encrypt(text, e, n) == [-1] + Encrypt(text[2..], e, n)
    ensures !PairAt(text, 0) ==> Encrypt(text, e, n) == [EncryptUnit(text[0], e, n)] + Encrypt(text[1..], e, n)
  {
  }

  /** What the page makes of `"😀ab!"`: four ciphertext entries, one per code
      point, */
  lemma AstralCiphertext(e: nat, n: nat)
    requires n > 0
    ensures Encrypt(AstralText, e, n) == [-1, EncryptUnit(0x61, e, n), EncryptUnit(0x62, e, n), -1]
  {
    var t := AstralText;
    var c4 := Encrypt(t[4..], e, n);
    EncryptStep(t[4..], e, n);
    assert t[4..][1..] == [];
    assert c4 == [EncryptUnit(0x21, e, n)];
    var c3 := Encrypt(t[3..], e, n);
    EncryptStep(t[3..], e, n);
    assert t[3..][1..] == t[4..];
    assert c3 == [EncryptUnit(0x62, e, n)] + c4;
    var c2 := Encrypt(t[2..], e, n);
    EncryptStep(t[2..], e, n);
    assert t[2..][1..] == t[3..];
    assert c2 == [EncryptUnit(0x61, e, n)] + c3;
    EncryptStep(t, e, n);
    assert PairAt(t, 0);
  }

  /** and a decryption that reads the original by code unit, so the `!` comes
      back as the `b` at index 3: `"\uD83DABb"`, not `"😀AB!"`. */
  lemma AstralRoundTripFails(k: KeyPair)
    requires ValidKey(k) && k.n > 25
    ensures DecryptWithKey(Encrypt(AstralText, k.e, k.n), k.d, k.n, AstralText) == [0xD83D, 0x41, 0x42, 0x62]
    ensures Upper(AstralText) == [0xD83D, 0xDE00, 0x41, 0x42, 0x21]
  {
    AstralCiphertext(k.e, k.n);
    AstralDecryption(k, Encrypt(AstralText, k.e, k.n));
    AstralUpper();
  }

  lemma AstralUpper()
    ensures Upper(AstralText) == [0xD83D, 0xDE00, 0x41, 0x42, 0x21]
  {
    var u := Upper(AstralText);
    assert u[0] == 0xD83D && u[1] == 0xDE00 && u[2] == 0x41 && u[3] == 0x42 && u[4] == 0x21;
  }

  lemma AstralDecryption(k: KeyPair, cs: seq<int>)
    requires ValidKey(k) && k.n > 25
    requires cs == [-1, EncryptUnit(0x61, k.e, k.n), EncryptUnit(0x62, k.e, k.n), -1]
    ensures DecryptWithKey(cs, k.d, k.n, AstralText) == [0xD83D, 0x41, 0x42, 0x62]
  {
    LetterEntry(k, 0x61, 1, AstralText);
    LetterEntry(k, 0x62, 2, AstralText);
    var dec := DecryptWithKey(cs, k.d, k.n, AstralText);
    assert |dec| == 4;
    assert dec[0] == DecryptUnit(cs[0], 0, k.d, k.n, AstralText)[0] == 0xD83D;
    assert dec[1] == DecryptUnit(cs[1], 1, k.d, k.n, AstralText)[0] == 0x41;
    assert dec[2] == DecryptUnit(cs[2], 2, k.d, k.n, AstralText)[0] == 0x42;
    assert dec[3] == DecryptUnit(cs[3], 3, k.d, k.n, AstralText)[0] == 0x62;
  }

  /** The entry of an encrypted letter decrypts to that letter upper-cased,
      wherever it stands. */
  lemma LetterEntry(k: KeyPair, c: CodeUnit, i: nat, original: Text)
    requires ValidKey(k) && k.n > 25 && IsAsciiLetter(c)
    ensures DecryptUnit(EncryptUnit(c, k.e, k.n), i, k.d, k.n, original) == [UpperUnit(c)]
  {
    DecryptEncryptUnit(k, c);
  }

  /** How many code units the code point that opens `t` takes. */
  function FirstCodePointLength(t: Text): (k: nat)
    ensures t != [] ==> (k == 2 <==> PairAt(t, 0)) && k <= |t|
    ensures t == [] ==> k == 0
  {
    if t == [] then 0 else if PairAt(t, 0) then 2 else 1
  }

  /** What the intended decryption appends for one ciphertext entry `c` when
      the original text still to be restored is `original`. */
  function AlignedPiece(c: int, d: nat, n: nat, original: Text): Text
    requires n > 0 && c >= -1
  {
    if c != -1 then [NumberToLetter(ModPow(c, d, n))]
    else if original == [] then UndefinedText()
    else original[..FirstCodePointLength(original)]
  }

  /** The decryption the comment "get from original" evidently intends: walk
      the original text code point by code point alongside the ciphertext, so
      that a `-1` restores the code point it stands for. */
  function DecryptAligned(cipher: seq<int>, d: nat, n: nat, original: Text): Text
    requires n > 0
    requires forall i :: 0 <= i < |cipher| ==> cipher[i] >= -1
    decreases |cipher|
  {
    if cipher == [] then []
    else
      AlignedPiece(cipher[0], d, n, original)
        + DecryptAligned(cipher[1..], d, n, original[FirstCodePointLength(original)..])
  }

  /** Decrypting the number of a text's first code point restores that code
      point, upper-cased. */
  lemma FirstPieceRestored(k: KeyPair, text: Text)
    requires ValidKey(k) && k.n > 25 && text != []
    ensures AlignedPiece(Encrypt(text, k.e, k.n)[0], k.d, k.n, text)
      == Upper(text[..FirstCodePointLength(text)])
  {
    var m := FirstCodePointLength(text);
    EncryptStep(text, k.e, k.n);
    if m == 1 && IsAsciiLetter(text[0]) {
      DecryptEncryptUnit(k, text[0]);
    }
    assert Upper(text[..m])[0] == UpperUnit(text[0]);
  }

  /** With the aligned decryption the round trip holds for every text. */
  lemma {:induction false} DecryptAlignedRoundTrip(k: KeyPair, text: Text)
    requires ValidKey(k) && k.n > 25
    ensures DecryptAligned(Encrypt(text, k.e, k.n), k.d, k.n, text) == Upper(text)
    decreases |text|
  {
    if text != [] {
      var m := FirstCodePointLength(text);
      var cs := Encrypt(text, k.e, k.n);
      EncryptStep(text, k.e, k.n);
      assert cs[1..] == Encrypt(text[m..], k.e, k.n);
      DecryptAlignedRoundTrip(k, text[m..]);
      FirstPieceRestored(k, text);
      UpperConcat(text, m);
    }
  }
}
