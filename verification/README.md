# Probability and statistics pages — a Dafny model

This project models the computational core of a set of browser pages that
teach probability and statistics through security-flavoured exercises:

- **hw3.js — RSA key generation and a frequency attack.** Primality by trial
  division, gcd, the modular inverse by the extended Euclidean algorithm,
  modular exponentiation by square-and-multiply, key generation with its
  validation order, letter encryption and decryption, the letter
  distribution, its chi-squared score, and the attack that tries every
  private exponent and ranks the decryptions by score.
- **hw10.js — a counting process.** Bernoulli events on a grid of n
  subintervals, the time of the first event, the Poisson table, the
  Kolmogorov–Smirnov and chi-square statistics, and the summary of final
  counts.
- **hw7.js — a ±1 random walk** ("security score"). The path, the final
  scores, the binomial table keyed by score, and the same goodness-of-fit
  statistics (the code of the helpers is identical to hw10.js and is
  modelled once).
- **hw6.js — online (Welford) against batch (two-pass) moments.** The mean,
  variance, skewness, kurtosis and range, the scale factor, the
  step-by-step trace, the numerical-stability reference and the
  interpolated percentile.
- **hw11.js — Wiener processes.** The arithmetic Brownian motion of
  part 1 with its quartiles, moments and sign shares. The standard Wiener
  process and the Euler–Maruyama SDE simulator of part 2, with the drift
  and diffusion builders.
- **hw4.js — the law-of-large-numbers stepper.** Its state, the start,
  step, pause, reset and completion transitions, and the bins of the
  frequency histogram.
- **hw2.js — the CSV parser and frequency tabulation.** `parseCSV` and
  `computeFrequency`.

Randomness never enters the model. Every `Math.random()` or Box–Muller
draw is an explicit input: a sequence of uniforms in [0, 1) per
trajectory, or of normal variates per trajectory. So every simulator is a
deterministic function of its draws. `Math.sqrt(dt)` and `Math.exp(-λ)`
are parameters too: `sqrtDt` and `expNeg`, or, for hw6.js, a function
`sqrt` constrained to be a non-negative square root. Doubles are exact
reals. JavaScript strings are sequences of UTF-16 code units. Upper-casing,
`trim` and the decryption walk them unit by unit. The encryption loop
`for (const char of plaintext)` walks them by code point, with a surrogate
pair as one step, and the model does the same.

One module per file:

- `wrappers` — `Option`, `Result`.
- `arith` — integer facts and `Pow`.
- `number_theory` — `NumberTheory`.
- `fermat` — Fermat's little theorem and the Chinese remainder step behind
  the RSA round trip.
- `rsa` — `Rsa`.
- `rsa_page` — `RsaPage`, the page state and the attack.
- `text` — `JsText`: upper-casing and `trim`.
- `letter_stats` — `LetterStats`.
- `frequency_table` — `FrequencyTable`: the `{}`-object tallies.
- `goodness_of_fit` — `GoodnessOfFit`.
- `discrete` — `Discrete`.
- `real_seqs` — `RealSeqs`: sums, sorting, extremes.
- `final_summary` — `FinalSummary`.
- `counting_process` — `CountingProcess`.
- `random_walk` — `RandomWalk`.
- `moments` — `Moments`.
- `welford` — `Welford`.
- `calculators` — `Calculators`.
- `wiener` — `Wiener`.
- `lln` — `LawOfLargeNumbers`.
- `csv` — `Csv`.

Where the code and its messages or comments disagree, the model follows
the code:

- The volatility check at hw11.js:71 accepts every σ in (0, 5], although
  its message says "between 0.1 and 5".
- The comment at hw3.js:504 says "from 1 to phi", but the loop stops
  before φ.
- The guard at hw2.js:110 can never fire, because `split` always returns
  at least one element. A blank text yields one empty header and no rows.
- With no inverting exponent, hw3.js:526-528 would read `best.d` of
  `undefined`. The model reports this as the error `NoCandidate`.

## Model

| member | source | states |
|---|---|---|
| NumberTheory.IsPrime | hw3.js:54-62 | the trial-division test (2 and 3 accepted, evens rejected, odd divisors up to √n) answers true exactly for the primes |
| NumberTheory.SmallPrimes | hw3.js:65-71 | the list holds exactly the primes up to the limit, strictly ascending |
| NumberTheory.Gcd | hw3.js:74-81 | the Euclidean loop returns a common divisor that every common divisor divides, 0 only for gcd(0, 0) |
| NumberTheory.ModInverse | hw3.js:85-97 | the extended Euclidean result, shifted into [0, φ), satisfies e·d ≡ 1 (mod φ) whenever gcd(e, φ) = 1 |
| NumberTheory.ModPow | hw3.js:101-113 | square-and-multiply returns base^exp mod m, below m |
| Rsa.AutoExponent | hw3.js:171-183 | without a user exponent, the first of the fixed candidates that is below φ and coprime to φ is taken, else 3 |
| Rsa.GenerateKeys | hw3.js:145-203 | the errors come in the page's order (p not prime, q not prime, p = q, unacceptable e); on success n = pq, φ = (p−1)(q−1), d < φ, e is the user's or the automatic exponent, and d inverts e modulo φ whenever e is coprime to φ, which a user exponent always is |
| Rsa.LetterCodeRoundTrip | hw3.js:284-292 | letter → number → letter gives the upper-cased letter, and number → letter → number is the identity on 0..25 |
| JsText.CodePointsPerUnit | hw3.js:310 | the code points `for…of` visits are as many as the code units exactly when the text has no surrogate pair, and then each is the one unit at its index |
| Rsa.Encrypt | hw3.js:310-319 | one code per code point; −1 for a non-letter (a surrogate pair included), otherwise the letter's number raised to e mod n |
| Rsa.DecryptWithKey | hw3.js:395-411 | −1 restores the original character at that position; any other code decrypts to NumberToLetter(c^d mod n) |
| Rsa.DecryptEncrypt | hw3.js:294-329 | for a valid key with n > 25, decrypting the encryption of a text gives the text upper-cased exactly when it has no surrogate pair |
| Rsa.AstralRoundTripFails | hw3.js:310-319 | for "😀ab!" the ciphertext has four entries, and decrypting them against the text gives "\uD83DABb" rather than "😀AB!" |
| Rsa.DecryptAlignedRoundTrip | hw3.js:395-411 | a decryption that advances through the original text by code point, as the encryption does, gives every text back upper-cased |
| RsaPage.GenerateKeysOnPage | hw3.js:145-203 | a failure leaves the page state unchanged; a success installs the key and clears the message, ciphertext and distribution |
| RsaPage.EncryptMessage | hw3.js:294-329 | it fails without keys or on a blank message; otherwise it stores the text, its ciphertext (one entry per code point) and its letter distribution |
| RsaPage.DecryptMessage | hw3.js:377-393 | it fails without keys or ciphertext; otherwise it decrypts the stored ciphertext with the stored private key |
| RsaPage.EncryptThenDecrypt | hw3.js:294-393 | with a valid key and n > 25, encrypting and then decrypting on the page both succeed, and the result is the message upper-cased exactly when the message has no surrogate pair |
| RsaPage.Candidates | hw3.js:505-522 | the candidates are exactly the d in [1, φ) with e·d ≡ 1 (mod φ), each scored against the original distribution, in ascending d |
| RsaPage.SortIsStable | hw3.js:525 | sorting by score keeps candidates of equal score in ascending d |
| RsaPage.FrequencyAttack | hw3.js:493-534 | the attack fails with nothing encrypted or no candidate; otherwise it ranks a permutation of the candidates, the best has the least score, and ties keep ascending d |
| RsaPage.InverseUnique | hw3.js:505-507 | two exponents below φ that both invert e modulo φ are equal |
| RsaPage.SoleInverse | hw3.js:505-507 | when some d below φ inverts e, the search over [1, φ) keeps exactly that d |
| RsaPage.AttackFindsTrueKey | hw3.js:505-534 | whenever the stored private exponent inverts e modulo φ, the attack succeeds, its ranked list is that exponent's candidate alone, and the reported best d is the stored d, the page's exact key match (hw3.js:610) |
| RsaPage.AttackAfterEncryption | hw3.js:493-534 | right after encrypting with a valid key, the attack succeeds and discovers the private key d for every message; for a message without surrogate pairs its best score is also 0 |
| LetterStats.LetterCounts | hw3.js:458-478 | the count of each letter is its multiplicity in the upper-cased text |
| LetterStats.TallyTotal | hw3.js:458-478 | the total never exceeds the length, and equals it exactly when every character is a letter |
| LetterStats.TallyIgnoresCase | hw3.js:458-478 | the distribution of the upper-cased text is the distribution of the text |
| LetterStats.ChiSquaredScore | hw3.js:480-491 | the score is non-negative, and 0 exactly when the two percentage profiles agree on all 26 letters |
| GoodnessOfFit.KsStatistic | hw10.js:663-677 | the result is the largest CDF deviation over the sorted keys (0 if none); it lies in [0, 1] for sub-stochastic tables and is 0 when empirical and theoretical tables coincide |
| GoodnessOfFit.MaxDeviationUnique | hw10.js:663-677 | the largest deviation is determined by the keys and tables alone, so any two values meeting its definition are equal |
| GoodnessOfFit.DeviationZeroOnMatch | hw7.js:610-624 | when every key's empirical share equals its theoretical probability, each CDF deviation is 0 |
| GoodnessOfFit.ChiSquare | hw10.js:679-692 | the statistic is non-negative, and 0 exactly when every key with positive expectation is observed exactly as expected |
| GoodnessOfFit.ChiSquareSkipsUnexpected | hw7.js:626-639 | keys whose expected count is not positive contribute nothing |
| Discrete.Factorial | hw10.js:649-655 | NaN (None) for negative n; otherwise the loop returns n!, which satisfies n! = n·(n−1)! |
| Discrete.PoissonPmf | hw10.js:642-647 | 0 for a non-positive rate; otherwise pmf·k! = λ^k·e^(−λ), positive |
| Discrete.Binomial | hw7.js:593-602 | 0 outside 0..n, 1 at the ends, and the multiplicative loop yields C(n, k) |
| Discrete.BinomialSymmetric | hw7.js:593-602 | C(n, k) = C(n, n−k) for every k |
| Discrete.BinomialIsFactorialQuotient | hw7.js:593-602 | the loop's value is n!/(k!(n−k)!) |
| Discrete.Median | hw10.js:657-661 | undefined exactly for an empty sample, otherwise between its minimum and maximum |
| Discrete.MedianPermutation | hw7.js:604-608 | the median depends only on the multiset of values |
| Discrete.MedianSplitsSample | hw10.js:657-661 | at least half the sample is ≤ the median and at least half is ≥ it |
| Discrete.MedianQuartileIsMiddle | hw6.js:394-404 | the interpolated percentile at 0.5 is the middle element for an odd length and the mean of the two middle elements otherwise, as `computeMedian` takes it |
| FinalSummary.Kept | hw10.js:78-80 | the first displayCount trajectories (clamped to 0..m) are kept for the chart |
| FinalSummary.Summarize | hw10.js:83-128 | the frequency table counts each final value's multiplicity, its keys ascend and cover the values, the counts sum to m; the mean is the sample mean, the variance is the sample's population variance (non-negative), the extremes are the sample's, and the median is the sample median, between them |
| CountingProcess.ValidateParameters | hw10.js:16-31 | it accepts exactly T ∈ [0.1, 10], λ ∈ [0.5, 50], n ∈ [100, 10000], m ∈ [50, 5000], and names the first failing range in the page's words |
| CountingProcess.EventsAreSuccesses | hw10.js:61-70 | the final count equals the number of draws below p |
| CountingProcess.CountPathMonotone | hw10.js:57-70 | the counting path starts at 0, never decreases, and rises by at most one per step |
| CountingProcess.FirstEventTimeInRange | hw10.js:64-74 | the first event time (i+1)·dt, or T when no event occurs, lies in (0, T] |
| CountingProcess.Trajectory | hw10.js:57-76 | the loop's path, final count and first event time are the model's path, success count and first event time |
| CountingProcess.RunTrajectories | hw10.js:52-81 | every trajectory contributes its final count and first event time; the first 50 paths are kept |
| CountingProcess.SimulateCountingProcess | hw10.js:44-129 | the paths and counts come from draws below p = λT/n; every count lies in 0..n; the first event times lie in (0, T] and meanFirstTime is their mean; the Poisson table covers the sorted counts; KS is the largest CDF deviation and is 0 when the tables coincide; χ² is the chi-square sum over the counts |
| RandomWalk.ValidateParameters | hw7.js:18-29 | it accepts exactly n ∈ [5, 500], m ∈ [10, 50000], p ∈ [0, 1], with the page's messages in its order |
| RandomWalk.ScoreShape | hw7.js:64-69 | the final score is n − 2k for k breaches, so it lies in [−n, n] and has the parity of n |
| RandomWalk.WalkPathBounds | hw7.js:60-69 | the score after i steps lies in [−i, i] |
| RandomWalk.Trajectory | hw7.js:60-71 | the loop's path is the walk path, and its final score is n − 2·breaches |
| RandomWalk.RunWalks | hw7.js:54-77 | one final score per trajectory, and the first displayCount paths are kept |
| RandomWalk.BinomialTableComplete | hw7.js:89-99 | every reachable score gets a binomial probability, keyed by that score, in order |
| RandomWalk.SimulateRandomWalks | hw7.js:49-135 | final scores are n − 2·breaches; the table covers every observed score; the theoretical mean is n(1−2p) and the variance 4np(1−p); KS is the largest CDF deviation and is 0 when the tables coincide; χ² is the chi-square sum over the scores |
| Moments.Percentile | hw6.js:394-404 | 0 for an empty array; the interpolated value lies between neighbouring order statistics; p = 0 gives the minimum and p = 1 the maximum |
| Moments.VarianceNonNegative | hw6.js:95-100 | the sample variance is non-negative, and 0 exactly when there is at most one value or all values equal the mean |
| Moments.VarianceScale | hw6.js:32 | scaling the data by c scales the sample variance by c² |
| Moments.StabilityReference | hw6.js:299-315 | the base data [1, 1.1, 1.2, 1.3, 1.4] has variance 0.025, so the reference variance at magnitude M is 0.025·M² |
| Welford.OnlineIsTwoPass | hw6.js:56-66 | the corrected online update yields exactly the two-pass mean and the sums of squared, cubed and fourth deviations |
| Welford.AsWrittenKeepsMeanAndM2 | hw6.js:56-66 | the update as written still yields the right count, mean and M2 |
| Welford.AsWrittenCounterexample | hw6.js:62-64 | for [0, 1, 3] the M3 and M4 updates as written give 40/9 and 3109/72, while the deviation sums are 20/9 and 98/9 |
| Calculators.OnlineMoments | hw6.js:49-66 | the online pass as written counts n steps and ends with the two-pass mean and sum of squared deviations |
| Calculators.IntendedOnlineMoments | hw6.js:49-66 | with the corrected M3 and M4 updates, the online pass also ends with the two-pass sums of cubed and fourth deviations |
| Calculators.OnlineDiffersOnlyInHigherMoments | hw6.js:49-86 | the page's calculator and the corrected one agree on n, mean, M2, variance, standard deviation, extremes, range and step count |
| Calculators.OnlineHigherMomentsDiffer | hw6.js:62-64 | on [0, 1, 3] the page's calculator reports M3 = 40/9 and M4 = 3109/72, the corrected one 20/9 and 98/9 |
| Calculators.OnlineVariance | hw6.js:68-69 | the online variance is the sample variance (÷ n−1) and the standard deviation is its square root |
| Calculators.OnlineShape | hw6.js:70-86 | constant data has skewness and kurtosis 0; the extremes bound every value; the range is max − min ≥ 0 |
| Calculators.BatchResults | hw6.js:91-124 | the batch pass (3 steps) returns the mean, the sample variance, its root, the extremes and the range |
| Calculators.OnlineAgreesWithBatch | hw6.js:49-124 | online and batch agree on n, mean, variance, standard deviation, extremes and range |
| Calculators.StatisticsOfScaledData | hw6.js:9-47 | no data is an error; otherwise both methods report c·mean and c²·variance of the raw values, where c is the factor or 1 when the factor is missing or 0 |
| Calculators.StepByStep | hw6.js:205-238 | at most 20 rows, with the rest counted as "more"; row i holds x_i, its δ (x_i minus the mean of the values before it, 0 before the first) and the mean, M2 and sample variance of the first i+1 values |
| Wiener.ValidateWiener | hw11.js:58-74 | it accepts exactly T ∈ [0.5, 100], n ∈ [100, 20000], m ∈ [50, 5000], σ ∈ (0, 5], with the first failing message |
| Wiener.ValidateSde | hw11.js:664-667 | it accepts exactly T > 0, n ≥ 100, m ≥ 10 |
| Wiener.TimeGridShape | hw11.js:101-103 | the grid runs from 0 to T in n equal steps of T/n, strictly increasing for T > 0 |
| Wiener.PathSteps | hw11.js:113-121 | each path point is the step function applied to the previous point and the next normal draw |
| Wiener.BuildDrift | hw11.js:496-510 | "const" gives μ, "linear" gives μx, any other non-custom form gives 0 |
| Wiener.BuildDiffusion | hw11.js:512-526 | "const" gives σ, "linear" gives σx, any other non-custom form gives 1 |
| Wiener.ConstantSdeIsDriftWiener | hw11.js:462-510 | the Euler–Maruyama path with constant μ and σ from 0 is the part 1 drifted Wiener path |
| Wiener.UnitDriftWienerIsStandard | hw11.js:113-121 | the part 1 path with μ = 0, σ = 1 is the standard Wiener path of part 2 |
| Wiener.StandardSdeIsWiener | hw11.js:432-526 | an SDE with zero drift and unit diffusion, given by any form that yields them, follows the standard Wiener path |
| Wiener.RunPaths | hw11.js:105-127 | one final value per trajectory, equal to the last point of its path; the first displayCount paths are kept |
| Wiener.QuantileIndexInRange | hw11.js:132-134 | the quartile indices ⌊m·q⌋ are valid and ordered |
| Wiener.Statistics | hw11.js:129-145 | sorted finals are a permutation; the quartiles are the sorted entries at ⌊m·q⌋, with min ≤ q25 ≤ q50 ≤ q75 ≤ max, all taken from the data; the mean and the population variance (non-negative) are the sample's; the sign shares are the positive and negative counts over m, non-negative and summing to at most 1 |
| Wiener.SimulateWienerProcess | hw11.js:94-152 | dt = T/n; the time grid; each path is the drifted walk from 0; the statistics of the finals; theoretical mean μT and variance σ²T |
| Wiener.SimulateStandardWiener | hw11.js:432-459 | each path starts at 0 and adds √dt·z per step; the finals are sorted into a permutation, and the mean and the population variance (non-negative) are those of the finals |
| Wiener.SimulateSde | hw11.js:462-493 | each path starts at x0 and takes Euler–Maruyama steps x + a(x,t)·dt + b(x,t)·√dt·z on the time grid |
| LawOfLargeNumbers.ChooseExperiment | hw4.js:55-85 | the coin sets p = 1/2 and the die p = 1/6; nothing else changes |
| LawOfLargeNumbers.ValidateStart | hw4.js:146-153 | it accepts exactly 1 ≤ m ≤ 200 and 10 ≤ n ≤ 2000, and checks m first |
| LawOfLargeNumbers.Begin | hw4.js:157-166 | m fresh trajectories with 0 successes and frequency history [0], step 0, running and not paused |
| LawOfLargeNumbers.Step | hw4.js:178-203 | a stopped or paused simulation is unchanged; at step n it completes; otherwise the step advances and each trajectory appends its new success share |
| LawOfLargeNumbers.StepPreservesValid | hw4.js:178-206 | a step keeps each history one longer than the step count, with every share in [0, 1] and the last equal to successes/step |
| LawOfLargeNumbers.Start | hw4.js:142-176 | an invalid size leaves the state unchanged; otherwise the run begins and takes its first step |
| LawOfLargeNumbers.StartPreservesValid | hw4.js:142-176 | starting keeps the state valid |
| LawOfLargeNumbers.TogglePause | hw4.js:225-239 | pausing only sets the flag; resuming clears it and takes a step |
| LawOfLargeNumbers.TogglePausePreservesValid | hw4.js:225-239 | pausing and resuming keep the state valid |
| LawOfLargeNumbers.Reset | hw4.js:241-250 | step 0, not running, not paused, no trajectories; m, n and p are kept |
| LawOfLargeNumbers.RunCompletes | hw4.js:178-206 | from a valid running state, n − step + 1 further steps stop the run at step n, still valid |
| LawOfLargeNumbers.BinCount | hw4.js:436 | the bin count is ⌊m/4⌋ clamped to [5, 15] |
| LawOfLargeNumbers.Clamp | hw4.js:443 | the index is clamped into [0, bins) and left unchanged when already inside |
| LawOfLargeNumbers.BinIndexMonotone | hw4.js:442-445 | a larger frequency never lands in an earlier bin |
| LawOfLargeNumbers.TallyCounts | hw4.js:441-445 | each bin counts the frequencies whose index it is, and the counts sum to the number of frequencies |
| LawOfLargeNumbers.HistogramOf | hw4.js:415-445 | there is a histogram exactly when trajectories exist and a step was taken; then 0 ≤ lo < hi ≤ 1 contains every frequency, 5..15 bins are used, and the counts sum to m |
| Csv.SplitShape | hw2.js:109 | splitting at a separator gives one more part than the separator's occurrences, and no part contains it |
| Csv.JoinSplit | hw2.js:109 | joining the parts with the separator restores the text |
| Csv.SplitJoin | hw2.js:112-114 | splitting the join of separator-free parts restores the parts |
| Csv.Lines | hw2.js:109 | one line per line feed plus one, with no line feed inside a line and a trailing carriage return dropped |
| Csv.RemoveQuotes | hw2.js:112-114 | every double quote is removed and every other character keeps its count; a quote-free text is unchanged |
| Csv.Row | hw2.js:115-118 | the row's keys are exactly the headers; each header maps to the value in its last column, or "" past the end |
| Csv.RowOfDistinctHeaders | hw2.js:116-118 | with distinct headers, header i maps to value i |
| Csv.ParseCsv | hw2.js:108-123 | the headers are the fields of the first line of the trimmed text; every later line gives exactly one row, in order, pairing those headers with that line's fields |
| Csv.ParseCsvShape | hw2.js:112-120 | there is one header more than the first line has commas and one row per line break of the trimmed text; every row's keys are exactly the headers, and no header or value contains a double quote |
| Csv.ParseBlank | hw2.js:109-110 | a blank text parses to one empty header and no rows |
| Csv.ValueOf | hw2.js:279 | a missing or empty cell reads as "(empty)" |
| Csv.SortByCount | hw2.js:286-287 | the entries are reordered, none lost, into non-increasing counts |
| Csv.CountTable | hw2.js:280-287 | one entry per distinct value, counting its multiplicity, in non-increasing count order |
| Csv.ComputeFrequency | hw2.js:278-292 | distinct labels covering exactly the column's values, counts equal to multiplicities, non-increasing, and percentage = count/rows·100 |
| Csv.ComputeFrequencyTotal | hw2.js:278-292 | the counts sum to the number of rows |

## Left out

- Drawing, the DOM, alerts, logging, progress bars and file upload are left out. They have no effect on the computed values.
- Random draws (`Math.random`, Box–Muller) are inputs to the model, not generated. Claims about their distribution are out of scope.
- `Math.sqrt`, `Math.exp`, `Math.pow(x, 1.5)` and `erf` are taken as parameters or left out, because Dafny's reals have no transcendental functions.
- Floating-point rounding is not modelled; all arithmetic is exact. For example, the association of `x + a·dt + b·dW` against `x + (μdt + σ√dt·z)` differs in floating point but not here.
- NumberTheory.ModPow: the result is exact here. The page computes `(result * base) % mod` and `(base * base) % mod` in doubles (hw3.js:107, 110), which are exact only while (n − 1)² ≤ 2^53, that is n ≤ 94,906,266. The primes are free input (hw3.js:148-149): p = 10007 and q = 10009 give n = 100,160,063, where those products round and the page's power modulo n can be wrong.
- Rsa.DecryptEncrypt: the round trip rests on ModPow, so on the page it is promised only for n ≤ 94,906,266.
- RsaPage.EncryptThenDecrypt: likewise promised on the page only for n ≤ 94,906,266.
- RsaPage.AttackAfterEncryption: the key recovery is promised on the page only for n ≤ 94,906,266 and while e·testD ≤ 2^53 for every tested exponent, because the test `(e * testD) % phi` (hw3.js:507) is a double product too. Past that, the page can accept a wrong exponent or miss the true one.
- `parseFloat`, `parseInt`, `NaN` handling and `toFixed` formatting are left out. The model starts from parsed numbers and keeps exact percentages.
- Wiener.BuildDrift: a "custom" form compiles a user expression with `new Function` and is not modelled.
- Wiener.BuildDiffusion: a "custom" form compiles a user expression with `new Function` and is not modelled.
- The hw4.js timers (`setTimeout`/`clearTimeout`, the speed setting and the redraw interval) are replaced by explicit steps. `Run` takes one step per supplied draw function.
- JsText.Trim strips a fixed list of ECMAScript white-space and line-terminator code units. A host whose Unicode tables list further space separators would strip those too.
- LetterStats.LetterCounts: upper-casing is ASCII only. The page's `toUpperCase` is the full Unicode mapping: it turns 'ß' into "SS" and 'ı' (U+0131) into 'I', so the page counts letters that the model does not.
- LetterStats.TallyTotal: the bound by the text length is a fact of the ASCII model only. On the page, a text such as "ß" yields a total of 2 from one unit.
- Csv.ComputeFrequency: JavaScript enumerates integer-like object keys first, in numeric order, before sorting. The model starts the stable sort from first-appearance order, so equal counts may be listed in a different order.
- GoodnessOfFit.KsStatistic: the bound of 1 is proved only for tables whose probabilities sum to at most 1. It is not proved for the Poisson and binomial tables themselves, which would need the series for e^λ.
- LetterStats.ChiSquaredScore: the percentages are exact. The page rounds them to two decimals with `toFixed(2)` before scoring, so two distributions the model tells apart can score 0 there.
- Csv.ComputeFrequency: the percentage is exact. The page formats it with `toFixed(1)`.
- Csv.Row: the page builds a row in a plain `{}` object, so a header named like an `Object.prototype` member (`__proto__` in particular) can behave differently there. Here every header is an ordinary key.
- Csv.CountTable: the page tallies into a plain `{}`, where `counts[v] || 0` reads an inherited member for values such as "constructor" or "toString", and "__proto__" cannot be stored. Here every value is an ordinary key, so those values are counted as for any other.
- Csv.ComputeFrequency: the same `{}` tally applies, so the page's counts for values named like `Object.prototype` members are not promised.
- Csv.ComputeFrequencyTotal: the counts sum to the number of rows only when no value is named like an `Object.prototype` member. The model keys values as ordinary map keys.
- RsaPage.AttackAfterEncryption: the zero best score is promised only for messages without surrogate pairs. With a pair, the page's decryption lags behind the original text (see Findings), so even the true exponent scores above 0.
- Rsa.DecryptWithKey and the page-level members follow the code as written, including its code-unit indexing. Rsa.DecryptAligned is the corrected reading and is not used by the page state.
- Discrete.PoissonPmf: `expNeg` stands for `Math.exp(-λ)` and is not tied to λ.
- Discrete.Factorial: the loop's product is exact here. In doubles it is `Infinity` for every k ≥ 171, which the page reaches when λT is large.
- Discrete.PoissonPmf: the pmf is exact here. The page accepts λ ≤ 50 and T ≤ 10, so λT goes up to 500. There `Math.pow(λT, k)` is `Infinity` once k·log10(λT) > 308 (k ≥ 115 for λT = 500), making the pmf `Infinity`. From k = 171 the factorial is `Infinity` too, and the pmf is `NaN`.
- CountingProcess.SimulateCountingProcess: past those thresholds the page's Poisson table holds `Infinity` or `NaN`. Its KS is then `NaN` or `Infinity`, because `Math.max` passes `NaN` on. Its χ² skips a key whose pmf is `NaN` (`NaN || 0` is 0), or becomes `NaN` on an `Infinity` entry. For example, with λ = 50, T = 10 and n = 10000 the counts sit near 500: the page shows KS = `NaN` and χ² = 0, while the model's KS and χ² are the exact values.
- Calculators.OnlineShape: skewness and kurtosis are stated only for constant data and through their defining formulas, because their values involve the abstract square root.
- The rest of hw2.js (the bivariate and multivariate views, and the language-frequency table) is not part of this model.
- The other helpers of each page (random prime choice, chart scaling, explanatory text) are not part of this model.

## Findings

| source | as written | input that shows it | evidently intended | confidence | as-written member | corrected member |
|---|---|---|---|---|---|---|
| hw6.js:62-64 | the online M3 and M4 updates use `delta2 = x − newMean` where the one-pass formulas need `delta/n` | data [0, 1, 3]: M3 is 40/9 and M4 is 3109/72, but the sums of cubed and fourth deviations are 20/9 and 98/9 | M3 and M4 equal the two-pass central sums | not executed | Welford.AsWrittenCounterexample | Welford.OnlineIsTwoPass |
| hw3.js:395-411 | `decryptWithKey` copies the original character for a −1 entry by a code-unit index that advances once per entry, while the entries were made one per code point | "😀ab!" decrypts to "\uD83DABb": after the pair the index lags one unit behind, and the `!` comes back as `b` | the original text read code point by code point, so the message comes back upper-cased | not executed | Rsa.AstralRoundTripFails | Rsa.DecryptAlignedRoundTrip |
