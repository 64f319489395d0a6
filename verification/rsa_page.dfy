/** The RSA page as a state record (hw3.js `rsaState`): key generation,
    message encryption, decryption with the private key, and the brute-force
    frequency attack over every private exponent that inverts `e`. */
module RsaPage {
  import opened Wrappers
  import opened NumberTheory
  import opened JsText
  import opened Rsa
  import opened LetterStats
  import Arith

  /** `rsaState`; `keys == None` is `keysGenerated == false`. */
  datatype RsaState = RsaState(
    keys: Option<KeyPair>,
    plaintext: Text,
    ciphertext: seq<int>,
    originalDistribution: LetterDistribution)

  /** The alert each page action raises instead of proceeding. `NoCandidate`
      is the `TypeError` the attack hits when `candidates[0]` is `undefined`. */
  datatype PageError = KeyGenerationFailed(reason: KeyError) | NoKeys | EmptyMessage | NothingEncrypted | NoCandidate

  /** The page before any key has been generated. */
  function InitialState(): RsaState {
    RsaState(None, [], [], Tally([]))
  }

  /** What every reachable state satisfies. */
  ghost predicate StateInvariant(s: RsaState) {
    && (s.keys.Some? ==> ValidKeyShape(s.keys.value))
    && (forall i :: 0 <= i < |s.ciphertext| ==> s.ciphertext[i] >= -1)
    && |s.originalDistribution.counts| == 26
    && (s.ciphertext != [] ==> s.keys.Some?)
  }

  /** What every generated key satisfies, whether or not `e` is invertible:
      a positive modulus, a totient of at least 2 and `d` reduced below it. */
  predicate ValidKeyShape(k: KeyPair) {
    k.n > 0 && k.phi > 1 && k.d < k.phi
  }

  lemma InitialStateInvariant()
    ensures StateInvariant(InitialState())
  {
  }

  /** `generateRSAKeys` on the page: a refused input leaves the state as it
      was; a generated key clears the message, the ciphertext and the table. */
  method GenerateKeysOnPage(s: RsaState, p: int, q: int, userE: Option<int>)
    returns (s': RsaState, r: Result<KeyPair, KeyError>)
    requires StateInvariant(s)
    ensures StateInvariant(s')
    ensures r.Failure? ==> s' == s
    ensures r.Success? ==> s' == RsaState(Some(r.value), [], [], Tally([]))
    ensures r.Success? ==> r.value.n == p * q && r.value.phi == (p - 1) * (q - 1)
    ensures r.Success? <==>
      (Prime(p) && Prime(q) && p != q
       && (userE.Some? ==> AcceptableExponent(userE.value, (p - 1) * (q - 1))))
  {
    r := GenerateKeys(p, q, userE);
    if r.Success? {
      TotientAtLeastTwo(p, q);
      MulPositive(p, q);
      s' := RsaState(Some(r.value), [], [], Tally([]));
    } else {
      s' := s;
    }
  }

  lemma MulPositive(p: int, q: int)
    requires p >= 2 && q >= 2
    ensures p * q > 0
  {
  }

  /** `encryptMessage`: needs keys and a message that is not blank after
      trimming; stores the message, its ciphertext and its letter table. */
  function EncryptMessage(s: RsaState, text: Text): (r: Result<RsaState, PageError>)
    requires StateInvariant(s)
    ensures s.keys.None? ==> r == Failure(NoKeys)
    ensures s.keys.Some? && Trim(text) == [] ==> r == Failure(EmptyMessage)
    ensures r.Success? <==> s.keys.Some? && Trim(text) != []
    ensures r.Success? ==> StateInvariant(r.value)
    ensures r.Success? ==>
      (r.value.keys == s.keys && r.value.plaintext == text
       && r.value.ciphertext == Encrypt(text, s.keys.value.e, s.keys.value.n)
       && r.value.originalDistribution == Tally(text))
  {
    if s.keys.None? then Failure(NoKeys)
    else if Trim(text) == [] then Failure(EmptyMessage)
    else
      var k := s.keys.value;
      Success(RsaState(s.keys, text, Encrypt(text, k.e, k.n), Tally(text)))
  }

  /** `decryptMessage`: needs keys and a stored ciphertext. */
  function DecryptMessage(s: RsaState): (r: Result<Text, PageError>)
    requires StateInvariant(s)
    ensures s.keys.None? ==> r == Failure(NoKeys)
    ensures s.keys.Some? && s.ciphertext == [] ==> r == Failure(NothingEncrypted)
    ensures r.Success? ==> r.value == DecryptWithKey(s.ciphertext, s.keys.value.d, s.keys.value.n, s.plaintext)
  {
    if s.keys.None? then Failure(NoKeys)
    else if s.ciphertext == [] then Failure(NothingEncrypted)
    else Success(DecryptWithKey(s.ciphertext, s.keys.value.d, s.keys.value.n, s.plaintext))
  }

  /** Encrypting and then decrypting on the page, for a key with an
      invertible `e` and a modulus above 25, succeeds, and gives the message
      back in upper case exactly when the message has no surrogate pair. */
  lemma EncryptThenDecrypt(s: RsaState, text: Text)
    requires StateInvariant(s) && s.keys.Some? && ValidKey(s.keys.value) && s.keys.value.n > 25
    requires Trim(text) != []
    ensures EncryptMessage(s, text).Success?
    ensures DecryptMessage(EncryptMessage(s, text).value).Success?
    ensures DecryptMessage(EncryptMessage(s, text).value).value == Upper(text) <==> NoSurrogatePairs(text)
  {
    var k := s.keys.value;
    var encrypted := RsaState(s.keys, text, Encrypt(text, k.e, k.n), Tally(text));
    assert EncryptMessage(s, text) == Success(encrypted);
    assert |text| >= |Trim(text)| > 0;
    assert CodePoints(text) != [] by {
      assert Concat(CodePoints(text)) == text;
    }
    assert DecryptMessage(encrypted) == Success(DecryptWithKey(encrypted.ciphertext, k.d, k.n, text));
    DecryptEncrypt(k, text);
  }

  /** One entry of the attack's candidate list. */
  datatype Candidate = Candidate(d: nat, decrypted: Text, distribution: LetterDistribution, score: real)

  /** The candidate built for a trial exponent `d`: the decryption, its
      letter table and its score against the original table. */
  function Evaluate(s: RsaState, d: nat): (c: Candidate)
    requires StateInvariant(s) && s.keys.Some?
    ensures c.d == d
  {
    var decrypted := DecryptWithKey(s.ciphertext, d, s.keys.value.n, s.plaintext);
    var dist := Tally(decrypted);
    Candidate(d, decrypted, dist, ChiSquaredScore(s.originalDistribution, dist))
  }

  predicate Inverts(e: nat, d: nat, phi: nat)
    requires phi > 0
  {
    (e * d) % phi == 1
  }

  /** Below φ, `e` has at most one inverse modulo φ. */
  lemma InverseUnique(e: nat, d1: nat, d2: nat, phi: nat)
    requires phi > 0 && d1 < phi && d2 < phi
    requires Inverts(e, d1, phi) && Inverts(e, d2, phi)
    ensures d1 == d2
  {
    Arith.ModOfSmall(d1, phi);
    Arith.ModOfSmall(d2, phi);
    Arith.MulModBoth(d1, e * d2, phi);
    Arith.MulModBoth(e * d1, d2, phi);
    assert d1 * (e * d2) == (e * d1) * d2;
  }

  /** The exponents the search loop keeps: every `testD` from `lo` up to
      (excluding) `hi` with `e·testD mod φ = 1`, in the order they are tried. */
  function InvertingExponents(e: nat, phi: nat, lo: nat, hi: nat): (ds: seq<nat>)
    requires phi > 0
    ensures forall i :: 0 <= i < |ds| ==> lo <= ds[i] < hi && Inverts(e, ds[i], phi)
    ensures forall i, j :: 0 <= i < j < |ds| ==> ds[i] < ds[j]
    decreases hi - lo
  {
    if lo >= hi then []
    else
      var rest := InvertingExponents(e, phi, lo + 1, hi);
      if Inverts(e, lo, phi) then
        var ds := [lo] + rest;
        assert forall i :: 0 <= i < |rest| ==> ds[i + 1] == rest[i];
        ds
      else
        rest
  }

  /** No exponent is skipped: every `d` in `[lo, hi)` that inverts `e` is kept. */
  lemma {:induction false} InvertingExponentsComplete(e: nat, phi: nat, lo: nat, hi: nat, d: nat)
    requires phi > 0
    requires lo <= d < hi && Inverts(e, d, phi)
    ensures d in InvertingExponents(e, phi, lo, hi)
    decreases hi - lo
  {
    if d != lo {
      InvertingExponentsComplete(e, phi, lo + 1, hi, d);
    }
  }

  /** The candidate list the attack builds, before sorting. */
  function Candidates(s: RsaState): (cs: seq<Candidate>)
    requires StateInvariant(s) && s.keys.Some?
    ensures var ds := InvertingExponents(s.keys.value.e, s.keys.value.phi, 1, s.keys.value.phi);
      |cs| == |ds| && forall i :: 0 <= i < |cs| ==> cs[i] == Evaluate(s, ds[i])
    ensures AscendingExponents(cs)
    ensures cs == [] <==> InvertingExponents(s.keys.value.e, s.keys.value.phi, 1, s.keys.value.phi) == []
  {
    var ds := InvertingExponents(s.keys.value.e, s.keys.value.phi, 1, s.keys.value.phi);
    seq(|ds|, i requires 0 <= i < |ds| => Evaluate(s, ds[i]))
  }

  predicate ScoreSorted(cs: seq<Candidate>) {
    forall i, j :: 0 <= i < j < |cs| ==> cs[i].score <= cs[j].score
  }

  /** Ordered by score, and by trial exponent among equal scores. */
  predicate ScoreThenExponent(cs: seq<Candidate>) {
    forall i, j :: 0 <= i < j < |cs| ==>
      cs[i].score < cs[j].score || (cs[i].score == cs[j].score && cs[i].d < cs[j].d)
  }

  /** Stable insertion: `c` goes after every element whose score is not larger. */
  function InsertByScore(c: Candidate, cs: seq<Candidate>): (r: seq<Candidate>)
    requires ScoreSorted(cs)
    ensures ScoreSorted(r)
    ensures multiset(r) == multiset(cs) + multiset{c}
  {
    if cs == [] then [c]
    else if c.score < cs[0].score then [c] + cs
    else
      TailSorted(cs);
      var rest := InsertByScore(c, cs[1..]);
      ConsBehindHead(c, cs, rest);
      [cs[0]] + rest
  }

  /** Putting the head of `cs` back in front of the sorted insertion into its
      tail gives a sorted list holding `cs` and `c`. */
  lemma ConsBehindHead(c: Candidate, cs: seq<Candidate>, rest: seq<Candidate>)
    requires cs != [] && ScoreSorted(cs) && cs[0].score <= c.score
    requires ScoreSorted(rest) && multiset(rest) == multiset(cs[1..]) + multiset{c}
    ensures ScoreSorted([cs[0]] + rest)
    ensures multiset([cs[0]] + rest) == multiset(cs) + multiset{c}
  {
    InsertBehindHead(c, cs, rest);
    assert cs == [cs[0]] + cs[1..];
    assert multiset(cs) == multiset{cs[0]} + multiset(cs[1..]);
    var r := [cs[0]] + rest;
    forall i, j | 0 <= i < j < |r|
      ensures r[i].score <= r[j].score
    {
      assert r[j] == rest[j - 1];
      if i > 0 {
        assert r[i] == rest[i - 1];
      }
    }
  }

  lemma TailSorted(cs: seq<Candidate>)
    requires cs != []
    ensures cs == [cs[0]] + cs[1..]
    ensures ScoreSorted(cs) ==> ScoreSorted(cs[1..])
    ensures ScoreThenExponent(cs) ==> ScoreThenExponent(cs[1..])
  {
    assert forall i :: 0 <= i < |cs| - 1 ==> cs[1..][i] == cs[i + 1];
  }

  /** Everything inserted behind the head of a sorted list ranks after it. */
  lemma InsertBehindHead(c: Candidate, cs: seq<Candidate>, rest: seq<Candidate>)
    requires cs != [] && ScoreSorted(cs) && cs[0].score <= c.score
    requires multiset(rest) == multiset(cs[1..]) + multiset{c}
    ensures forall i :: 0 <= i < |rest| ==> cs[0].score <= rest[i].score
    ensures ScoreThenExponent(cs) && (forall i :: 0 <= i < |cs| ==> cs[i].d < c.d) ==>
      forall i :: 0 <= i < |rest| ==>
        cs[0].score < rest[i].score || (cs[0].score == rest[i].score && cs[0].d < rest[i].d)
  {
    assert cs == [cs[0]] + cs[1..];
    forall i | 0 <= i < |rest|
      ensures rest[i] == c || rest[i] in cs[1..]
    {
      assert rest[i] in multiset(rest);
    }
  }

  /** Inserting a candidate whose exponent is larger than every exponent
      already ranked keeps the (score, exponent) order: the insertion is stable. */
  lemma {:induction false} InsertKeepsOrder(c: Candidate, cs: seq<Candidate>)
    requires ScoreSorted(cs) && ScoreThenExponent(cs)
    requires forall i :: 0 <= i < |cs| ==> cs[i].d < c.d
    ensures ScoreThenExponent(InsertByScore(c, cs))
  {
    if cs != [] && c.score >= cs[0].score {
      TailSorted(cs);
      assert forall i :: 0 <= i < |cs| - 1 ==> cs[1..][i].d < c.d by {
        assert forall i :: 0 <= i < |cs| - 1 ==> cs[1..][i] == cs[i + 1];
      }
      InsertKeepsOrder(c, cs[1..]);
      var rest := InsertByScore(c, cs[1..]);
      InsertBehindHead(c, cs, rest);
      assert InsertByScore(c, cs) == [cs[0]] + rest;
    }
  }

  /** `candidates.sort((a, b) => a.score - b.score)`: a permutation ordered by score. */
  function SortByScore(cs: seq<Candidate>): (r: seq<Candidate>)
    ensures ScoreSorted(r)
    ensures multiset(r) == multiset(cs)
    decreases |cs|
  {
    if cs == [] then []
    else
      var init, last := cs[..|cs| - 1], cs[|cs| - 1];
      assert cs == init + [last];
      InsertByScore(last, SortByScore(init))
  }

  predicate AscendingExponents(cs: seq<Candidate>) {
    forall i, j :: 0 <= i < j < |cs| ==> cs[i].d < cs[j].d
  }

  /** The sort is stable: candidates listed by increasing exponent come out
      ordered by score and, among equal scores, still by exponent. */
  lemma {:induction false} SortIsStable(cs: seq<Candidate>)
    ensures AscendingExponents(cs) ==> ScoreThenExponent(SortByScore(cs))
    decreases |cs|
  {
    if cs != [] && AscendingExponents(cs) {
      var init, last := cs[..|cs| - 1], cs[|cs| - 1];
      assert cs == init + [last];
      assert AscendingExponents(init) by {
        assert forall i :: 0 <= i < |init| ==> init[i] == cs[i];
      }
      SortIsStable(init);
      var sorted := SortByScore(init);
      assert forall i :: 0 <= i < |init| ==> init[i].d < last.d by {
        assert forall i :: 0 <= i < |init| ==> init[i] == cs[i];
      }
      PermutationBelow(init, sorted, last.d);
      InsertKeepsOrder(last, sorted);
    }
  }

  /** A permutation of candidates whose exponents are all below `bound` has
      only exponents below `bound`. */
  lemma PermutationBelow(cs: seq<Candidate>, ps: seq<Candidate>, bound: nat)
    requires multiset(ps) == multiset(cs)
    requires forall i :: 0 <= i < |cs| ==> cs[i].d < bound
    ensures forall i :: 0 <= i < |ps| ==> ps[i].d < bound
  {
    forall i | 0 <= i < |ps|
      ensures ps[i].d < bound
    {
      assert ps[i] in multiset(ps);
      assert ps[i] in cs;
    }
  }

  /** The attack's outcome: the ranked candidates and the first of them. */
  datatype AttackReport = AttackReport(ranked: seq<Candidate>, best: Candidate)

  /** Sorting the candidates and taking the first; `None` for an empty list. */
  function Rank(cs: seq<Candidate>): (r: Option<AttackReport>)
    ensures r.None? <==> cs == []
    ensures r.Some? ==> multiset(r.value.ranked) == multiset(cs)
    ensures r.Some? ==> r.value.ranked != [] && r.value.ranked[0] == r.value.best
    ensures r.Some? ==> forall i :: 0 <= i < |r.value.ranked| ==> r.value.best.score <= r.value.ranked[i].score
    ensures r.Some? && AscendingExponents(cs) ==> ScoreThenExponent(r.value.ranked)
  {
    var ranked := SortByScore(cs);
    if ranked == [] then
      assert |multiset(cs)| == 0;
      None
    else
      assert cs != [] by {
        assert ranked[0] in multiset(ranked);
      }
      SortIsStable(cs);
      Some(AttackReport(ranked, ranked[0]))
  }

  /** `frequencyAnalysisAttack`: every `d` in `[1, φ)` with `e·d ≡ 1 (mod φ)`
      is tried, the candidates are ranked by score, and the first is reported.
      With no candidate at all the page fails on `best.d`. */
  function FrequencyAttack(s: RsaState): (r: Result<AttackReport, PageError>)
    requires StateInvariant(s)
    ensures s.keys.None? || s.ciphertext == [] ==> r == Failure(NothingEncrypted)
    ensures r.Success? ==> s.keys.Some? && s.ciphertext != []
    ensures r.Success? ==> multiset(r.value.ranked) == multiset(Candidates(s))
    ensures r.Success? ==> r.value.ranked != [] && r.value.ranked[0] == r.value.best
    ensures r.Success? ==> ScoreThenExponent(r.value.ranked)
    ensures r.Success? ==> forall i :: 0 <= i < |r.value.ranked| ==> r.value.best.score <= r.value.ranked[i].score
    ensures r == Failure(NoCandidate) <==> (s.keys.Some? && s.ciphertext != [] && Candidates(s) == [])
  {
    if s.keys.None? || s.ciphertext == [] then Failure(NothingEncrypted)
    else
      var ranked := Rank(Candidates(s));
      if ranked.None? then Failure(NoCandidate) else Success(ranked.value)
  }

  /** There is no candidate exactly when no exponent in `[1, φ)` inverts `e`. */
  lemma NoCandidateMeaning(k: KeyPair)
    requires k.phi > 0
    ensures InvertingExponents(k.e, k.phi, 1, k.phi) == [] <==>
      forall d: nat :: 1 <= d < k.phi ==> !Inverts(k.e, d, k.phi)
  {
    var ds := InvertingExponents(k.e, k.phi, 1, k.phi);
    if ds != [] {
      assert 1 <= ds[0] < k.phi && Inverts(k.e, ds[0], k.phi);
    }
    forall d: nat | 1 <= d < k.phi && Inverts(k.e, d, k.phi)
      ensures ds != []
    {
      InvertingExponentsComplete(k.e, k.phi, 1, k.phi, d);
    }
  }

  /** Ranking loses no candidate. */
  lemma RankKeeps(cs: seq<Candidate>, c: Candidate)
    requires c in cs
    ensures Rank(cs).Some? && c in Rank(cs).value.ranked
  {
    assert c in multiset(cs);
    assert c in multiset(Rank(cs).value.ranked);
  }

  /** The search over `[lo, hi)` keeps exactly one exponent when some `d`
      in that range and below φ inverts `e`: that `d`. */
  lemma {:induction false} SoleInverse(e: nat, phi: nat, lo: nat, hi: nat, d: nat)
    requires lo <= d < hi <= phi && Inverts(e, d, phi)
    ensures InvertingExponents(e, phi, lo, hi) == [d]
    decreases hi - lo
  {
    if lo < d {
      SoleInverse(e, phi, lo + 1, hi, d);
      if Inverts(e, lo, phi) {
        InverseUnique(e, lo, d, phi);
      }
    } else {
      NoLaterInverse(e, phi, lo + 1, hi, d);
    }
  }

  /** Above the inverse `d`, the search keeps nothing. */
  lemma {:induction false} NoLaterInverse(e: nat, phi: nat, lo: nat, hi: nat, d: nat)
    requires phi > 0 && d < lo && hi <= phi && Inverts(e, d, phi)
    ensures InvertingExponents(e, phi, lo, hi) == []
    decreases hi - lo
  {
    if lo < hi {
      NoLaterInverse(e, phi, lo + 1, hi, d);
      if Inverts(e, lo, phi) {
        InverseUnique(e, lo, d, phi);
      }
    }
  }

  /** The key's own private exponent is the one candidate when it inverts
      `e` (as it does for every `ValidKey`): the inverse below φ is unique, so
      the attack never reaches the `undefined` case, and the reported `best.d`
      is the key's `d`, the page's exact match. */
  lemma AttackFindsTrueKey(s: RsaState)
    requires StateInvariant(s) && s.keys.Some? && s.ciphertext != []
    requires Inverts(s.keys.value.e, s.keys.value.d, s.keys.value.phi)
    ensures FrequencyAttack(s).Success?
    ensures FrequencyAttack(s).value.ranked == [Evaluate(s, s.keys.value.d)]
    ensures FrequencyAttack(s).value.best.d == s.keys.value.d
  {
    OnlyCandidate(s);
    AttackRanksCandidates(s);
    RankSingle(Evaluate(s, s.keys.value.d));
  }

  /** With an invertible `e`, the key's own `d` gives the one candidate. */
  lemma OnlyCandidate(s: RsaState)
    requires StateInvariant(s) && s.keys.Some?
    requires Inverts(s.keys.value.e, s.keys.value.d, s.keys.value.phi)
    ensures Candidates(s) == [Evaluate(s, s.keys.value.d)]
  {
    var k := s.keys.value;
    assert k.d != 0 by {
      assert (k.e * 0) % k.phi == 0;
    }
    SoleInverse(k.e, k.phi, 1, k.phi, k.d);
  }

  /** Ranking a single candidate reports it alone. */
  lemma RankSingle(c: Candidate)
    ensures Rank([c]) == Some(AttackReport([c], c))
  {
    assert [c][..0] == [];
    assert SortByScore([c]) == InsertByScore(c, SortByScore([]));
  }

  lemma AttackRanksCandidates(s: RsaState)
    requires StateInvariant(s) && s.keys.Some? && s.ciphertext != []
    requires Candidates(s) != []
    ensures FrequencyAttack(s) == Success(Rank(Candidates(s)).value)
  {
  }

  /** A candidate is what `Evaluate` builds for its own exponent. */
  lemma CandidateEvaluated(s: RsaState, c: Candidate)
    requires StateInvariant(s) && s.keys.Some?
    requires c in Candidates(s)
    ensures c == Evaluate(s, c.d)
  {
  }

  /** Right after encrypting a message with a valid key and a modulus above 25,
      the attack recovers the private exponent; for a message without surrogate pairs its
      best candidate matches the message's letter table exactly: the true
      exponent decrypts to the upper-cased message, whose table is the
      original one, so the lowest score is zero. */
  lemma AttackAfterEncryption(s: RsaState, text: Text)
    requires StateInvariant(s) && s.keys.Some? && ValidKey(s.keys.value) && s.keys.value.n > 25
    requires Trim(text) != []
    ensures EncryptMessage(s, text).Success?
    ensures FrequencyAttack(EncryptMessage(s, text).value).Success?
    ensures FrequencyAttack(EncryptMessage(s, text).value).value.best.d == s.keys.value.d
    ensures NoSurrogatePairs(text) ==> FrequencyAttack(EncryptMessage(s, text).value).value.best.score == 0.0
  {
    var k := s.keys.value;
    EncryptThenDecrypt(s, text);
    var s' := EncryptMessage(s, text).value;
    AttackFindsTrueKey(s');
    if NoSurrogatePairs(text) {
      BestScoresZero(s', k);
    }
  }

  /** When the key's own exponent decrypts the stored ciphertext to the
      upper-cased message, the best candidate scores zero. */
  lemma BestScoresZero(s: RsaState, k: KeyPair)
    requires StateInvariant(s) && s.keys == Some(k) && s.ciphertext != []
    requires Inverts(k.e, k.d, k.phi)
    requires s.originalDistribution == Tally(s.plaintext)
    requires DecryptWithKey(s.ciphertext, k.d, k.n, s.plaintext) == Upper(s.plaintext)
    ensures FrequencyAttack(s).Success? && FrequencyAttack(s).value.best.score == 0.0
  {
    AttackFindsTrueKey(s);
    var report := FrequencyAttack(s).value;
    var j :| 0 <= j < |report.ranked| && report.ranked[j].d == k.d;
    var c := report.ranked[j];
    assert c in multiset(Candidates(s)) by {
      assert c in multiset(report.ranked);
    }
    CandidateEvaluated(s, c);
    TrueKeyScoresZero(s, k);
    assert report.best.score <= report.ranked[j].score;
    var best := report.best;
    assert best in multiset(Candidates(s)) by {
      assert best == report.ranked[0];
      assert best in multiset(report.ranked);
    }
    CandidateEvaluated(s, best);
    ScoreNonNegative(s, best.d);
  }

  lemma ScoreNonNegative(s: RsaState, d: nat)
    requires StateInvariant(s) && s.keys.Some?
    ensures Evaluate(s, d).score >= 0.0
  {
  }

  /** On the state left by encryption, the key's own exponent scores zero. */
  lemma TrueKeyScoresZero(s: RsaState, k: KeyPair)
    requires StateInvariant(s) && s.keys == Some(k)
    requires s.originalDistribution == Tally(s.plaintext)
    requires DecryptWithKey(s.ciphertext, k.d, k.n, s.plaintext) == Upper(s.plaintext)
    ensures Evaluate(s, k.d).score == 0.0
  {
    TallyIgnoresCase(s.plaintext);
  }
}
