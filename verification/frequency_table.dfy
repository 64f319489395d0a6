/** Counting tables built the way the pages build them: an object filled by
    `table[v] = (table[v] || 0) + 1`, read back with `table[v] || 0`, and its
    numeric keys listed in ascending order
    (`Object.keys(table).map(Number).sort((a, b) => a - b)`). */
module FrequencyTable {

  /** `table[v] || 0`: an absent key reads as zero. */
  function Lookup<T>(f: map<T, nat>, v: T): nat {
    if v in f then f[v] else 0
  }

  /** The table of how often each value occurs; exactly the values that occur
      are keys, and each key maps to its multiplicity. */
  function Frequency<T(!new)>(xs: seq<T>): (f: map<T, nat>)
    ensures forall v :: v in f <==> v in xs
    ensures forall v :: Lookup(f, v) == multiset(xs)[v]
    decreases |xs|
  {
    if xs == [] then map[]
    else
      var init, v := xs[..|xs| - 1], xs[|xs| - 1];
      assert xs == init + [v];
      var f := Frequency(init);
      f[v := Lookup(f, v) + 1]
  }

  predicate StrictlyAscending(s: seq<int>) {
    forall i, j :: 0 <= i < j < |s| ==> s[i] < s[j]
  }

  /** Adds `x` to an ascending list of distinct keys, unless it is there already. */
  function InsertKey(x: int, s: seq<int>): (r: seq<int>)
    requires StrictlyAscending(s)
    ensures StrictlyAscending(r)
    ensures forall v :: v in r <==> v == x || v in s
  {
    if s == [] then [x]
    else if x == s[0] then s
    else if x < s[0] then [x] + s
    else
      var rest := InsertKey(x, s[1..]);
      assert s == [s[0]] + s[1..];
      assert forall i :: 0 <= i < |s| - 1 ==> s[1..][i] == s[i + 1];
      assert forall i :: 0 <= i < |rest| ==> s[0] < rest[i] by {
        forall i | 0 <= i < |rest|
          ensures s[0] < rest[i]
        {
          assert rest[i] in rest;
        }
      }
      [s[0]] + rest
  }

  /** The distinct values of `xs` in ascending order: the table's keys, sorted. */
  function SortedKeys(xs: seq<int>): (ks: seq<int>)
    ensures StrictlyAscending(ks)
    ensures forall v :: v in ks <==> v in xs
    decreases |xs|
  {
    if xs == [] then []
    else
      var init := xs[..|xs| - 1];
      assert xs == init + [xs[|xs| - 1]];
      InsertKey(xs[|xs| - 1], SortedKeys(init))
  }

  /** The total of the multiplicities `ms[k]` over the keys `ks`. */
  function SumMultiplicities<T>(ks: seq<T>, ms: multiset<T>): nat
    decreases |ks|
  {
    if ks == [] then 0 else SumMultiplicities(ks[..|ks| - 1], ms) + ms[ks[|ks| - 1]]
  }

  lemma {:induction false} SumMultiplicitiesAdd<T>(ks: seq<T>, a: multiset<T>, b: multiset<T>)
    ensures SumMultiplicities(ks, a + b) == SumMultiplicities(ks, a) + SumMultiplicities(ks, b)
    decreases |ks|
  {
    if ks != [] {
      SumMultiplicitiesAdd(ks[..|ks| - 1], a, b);
    }
  }

  /** No key listed twice. */
  predicate Distinct<T(==)>(ks: seq<T>) {
    forall i, j :: 0 <= i < j < |ks| ==> ks[i] != ks[j]
  }

  lemma {:induction false} SumMultiplicitiesSingle<T>(ks: seq<T>, x: T)
    requires Distinct(ks)
    ensures SumMultiplicities(ks, multiset{x}) == if x in ks then 1 else 0
    decreases |ks|
  {
    if ks != [] {
      var init := ks[..|ks| - 1];
      assert Distinct(init);
      assert ks == init + [ks[|ks| - 1]];
      SumMultiplicitiesSingle(init, x);
      if x == ks[|ks| - 1] {
        assert x !in init;
      }
    }
  }

  /** Summing the multiplicities over a list of distinct keys that covers every
      value counts every value exactly once. */
  lemma {:induction false} SumMultiplicitiesCovering<T>(ks: seq<T>, xs: seq<T>)
    requires Distinct(ks)
    requires forall v :: v in xs ==> v in ks
    ensures SumMultiplicities(ks, multiset(xs)) == |xs|
    decreases |xs|
  {
    if xs == [] {
      SumMultiplicitiesEmpty(ks);
    } else {
      var init, x := xs[..|xs| - 1], xs[|xs| - 1];
      assert xs == init + [x];
      assert multiset(xs) == multiset(init) + multiset{x};
      SumMultiplicitiesCovering(ks, init);
      SumMultiplicitiesAdd(ks, multiset(init), multiset{x});
      SumMultiplicitiesSingle(ks, x);
    }
  }

  lemma {:induction false} SumMultiplicitiesEmpty<T>(ks: seq<T>)
    ensures SumMultiplicities(ks, multiset{}) == 0
    decreases |ks|
  {
    if ks != [] {
      SumMultiplicitiesEmpty(ks[..|ks| - 1]);
    }
  }

  /** The table read back over a list of keys. */
  function SumLookups<T>(ks: seq<T>, f: map<T, nat>): nat
    decreases |ks|
  {
    if ks == [] then 0 else SumLookups(ks[..|ks| - 1], f) + Lookup(f, ks[|ks| - 1])
  }

  lemma {:induction false} SumLookupsFrequency<T(!new)>(ks: seq<T>, xs: seq<T>)
    ensures SumLookups(ks, Frequency(xs)) == SumMultiplicities(ks, multiset(xs))
    decreases |ks|
  {
    if ks != [] {
      SumLookupsFrequency(ks[..|ks| - 1], xs);
    }
  }

  /** The counts listed over the sorted keys add up to the number of values. */
  lemma FrequencySumsToLength(xs: seq<int>)
    ensures SumLookups(SortedKeys(xs), Frequency(xs)) == |xs|
  {
    SumLookupsFrequency(SortedKeys(xs), xs);
    SumMultiplicitiesCovering(SortedKeys(xs), xs);
  }
}
