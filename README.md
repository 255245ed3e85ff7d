# PCR cycle and heart-rate variability, modelled in Dafny

Two small, independent scripts: a text simulation of one PCR cycle and a heart-rate-variability (HRV) analysis of a recorded heartbeat signal. Both are pure computations, so the model is functions over Dafny values, plus lemmas about them.

- **PCR** (module `PcrSimulator`). `read_dna_sequence` takes the lines of a FASTA-style file. It drops every line whose raw text starts with `>`, strips surrounding whitespace from the others, and concatenates them. `denature` returns the strand unchanged. `anneal_primer` is a substring test. `extend` returns the strand from the first place the primer occurs, or the fixed text `Primer not found in sequence`. Strings are `seq<char>`, and the file's contents are the sequence of lines `readlines` would return.
- **HRV** (module `HrvAnalysis`). A recording is a sequence of rows holding a time and a signal value. Each row whose signal is exactly 1.0 marks a beat. The RR intervals are the differences between successive beat times (`np.diff`). SDNN is 1000 times the population standard deviation of the intervals (divisor n, as `np.std` uses by default). RMSSD is 1000 times the root mean square of the successive interval differences. `main` stops with "not enough beats" when fewer than two beats are found. Numbers are Dafny `real`s.
- **Shared pieces.** `Seqs` holds filtering, mapping and concatenation of sequences: the generator's `if` clause, the boolean mask and `''.join`. `Stats` holds differences, sums, means, variance and mean square, with their algebra. `Wrappers` holds `Option`.
- **Square roots.** Dafny has no square root on `real`, so the model reports SDNN² and RMSSD², both in ms². The relation `IsSquareRoot(y, x)` connects a reported value `y` to its square `x`. Lemmas show that this root is unique, that it is zero exactly when its square is, and that multiplying by 1000 turns the standard deviation of the intervals into SDNN and the root mean square of their successive differences into RMSSD, both in ms.
- **Exactly two beats.** With two beats there is one interval and no successive difference. `np.mean` of the empty array is NaN, so the code prints `RMSSD: nan`. The model's outcome gives no RMSSD (`None`) in that case, and `RmssdSquared` requires at least two intervals.

## Model

| member | source | states |
|---|---|---|
| PcrSimulator.TrimStart | 01_PCR_simulator/pcr_simulator.py:4 | removing leading whitespace leaves a suffix of the line, every removed character is whitespace, and the result does not start with whitespace |
| PcrSimulator.TrimEnd | 01_PCR_simulator/pcr_simulator.py:4 | removing trailing whitespace leaves a prefix of the line, every removed character is whitespace, and the result does not end with whitespace |
| PcrSimulator.Strip | 01_PCR_simulator/pcr_simulator.py:4 | `line.strip()` returns a slice `s[i..j]` with only whitespace before `i` and from `j` on, and with no whitespace at either end of the slice |
| PcrSimulator.StrippedSliceUnique | 01_PCR_simulator/pcr_simulator.py:4 | only one slice fits that description, so the contract of `Strip` determines its result completely |
| PcrSimulator.StripPadded | 01_PCR_simulator/pcr_simulator.py:4 | stripping whitespace padding from both sides of a core that has no whitespace at its ends gives back the core |
| PcrSimulator.ReadDnaSequence | 01_PCR_simulator/pcr_simulator.py:1-5 | the sequence read is the in-order concatenation of every line's contribution, and it is at most as long as all lines together |
| Seqs.JoinMapFilter | 01_PCR_simulator/pcr_simulator.py:4 | filtering, stripping and joining is joining every line's contribution, where a rejected line contributes nothing |
| Seqs.JoinFilterShorter | 01_PCR_simulator/pcr_simulator.py:4 | dropping lines never lengthens the concatenation |
| PcrSimulator.ReadDnaSequenceLine | 01_PCR_simulator/pcr_simulator.py:4 | a line whose raw text starts with `>` contributes nothing; any other line contributes its stripped text |
| PcrSimulator.ReadDnaSequenceAppend | 01_PCR_simulator/pcr_simulator.py:4 | reading two blocks of lines gives the two readings concatenated |
| PcrSimulator.ReadDnaSequenceIgnoresHeader | 01_PCR_simulator/pcr_simulator.py:4 | inserting a header line anywhere does not change the sequence |
| PcrSimulator.IndentedHeaderIsData | 01_PCR_simulator/pcr_simulator.py:4 | the header test looks at the raw line, so `"  >x\n"` is data and contributes `">x"` |
| PcrSimulator.ReadDnaSequenceExample | 01_PCR_simulator/pcr_simulator.py:4 | a header plus the lines `"AC GT\n"` and `"  TT  \n"` reads as `"AC GTTT"` |
| PcrSimulator.Denature | 01_PCR_simulator/pcr_simulator.py:7-8 | denaturing returns the strand unchanged |
| PcrSimulator.AnnealPrimer | 01_PCR_simulator/pcr_simulator.py:10-11 | `primer in dna` holds exactly when the primer occurs at some index of `dna`, so the empty primer always anneals |
| PcrSimulator.FindFrom | 01_PCR_simulator/pcr_simulator.py:14 | the search from a position returns the least index from there on where the primer occurs, or -1 when it occurs at none |
| PcrSimulator.Find | 01_PCR_simulator/pcr_simulator.py:14 | `dna.find(primer)` returns -1 exactly when the primer occurs nowhere; otherwise it returns the first occurrence, with no occurrence before it |
| PcrSimulator.ExtendOrNone | 01_PCR_simulator/pcr_simulator.py:13-18 | extension fails (`None`) exactly when the primer does not anneal |
| PcrSimulator.Extend | 01_PCR_simulator/pcr_simulator.py:13-18 | when the primer anneals, `extend` returns `dna[start..]`, where `start` is the index `find` returns and the least index of an occurrence; the result begins with the primer and its length is the length of `dna` minus `start`; otherwise it returns `Primer not found in sequence` |
| PcrSimulator.ExtendAgreesWithAnneal | 01_PCR_simulator/pcr_simulator.py:10-18 | `extend` returns the sentinel exactly when `anneal_primer` is false, for every strand that does not end in the sentinel text |
| PcrSimulator.ExtendSentinelExact | 01_PCR_simulator/pcr_simulator.py:13-18 | `extend` returns the sentinel text exactly when the primer does not anneal, or when the strand from the first occurrence on is the sentinel text itself |
| PcrSimulator.ExtendSentinelCollision | 01_PCR_simulator/pcr_simulator.py:13-18 | the primer `"Primer"` anneals to the strand `"Primer not found in sequence"`, and `extend` still returns the sentinel |
| PcrSimulator.ExtendEmptyPrimer | 01_PCR_simulator/pcr_simulator.py:14-16 | the empty primer anneals, is found at index 0, and extends to the whole strand |
| Seqs.Filter | 03_HeartRate_Arduino/HRV_analysis.py:6 | a filter keeps only elements of the input that pass the test, and never lengthens the input |
| Seqs.FilterIndicesSpec | 03_HeartRate_Arduino/HRV_analysis.py:6 | the filter keeps exactly the positions whose element passes the test, in increasing order, with each kept element equal to the input element at its position |
| HrvAnalysis.LoadHeartbeatData | 03_HeartRate_Arduino/HRV_analysis.py:6 | there are never more beat times than rows |
| HrvAnalysis.LoadHeartbeatDataSpec | 03_HeartRate_Arduino/HRV_analysis.py:6 | the beat times are the times of exactly the rows whose signal equals 1.0, in row order |
| HrvAnalysis.LoadHeartbeatDataAppend | 03_HeartRate_Arduino/HRV_analysis.py:6 | selecting beats from two blocks of rows gives the two selections concatenated |
| HrvAnalysis.LoadHeartbeatDataCons | 03_HeartRate_Arduino/HRV_analysis.py:6 | the first row contributes its time exactly when its signal is 1.0 |
| HrvAnalysis.LoadHeartbeatDataExample | 03_HeartRate_Arduino/HRV_analysis.py:6 | rows with signal 0.0, 0.999 or 2.0 are not beats; only the rows with 1.0 are |
| Stats.Diff | 03_HeartRate_Arduino/HRV_analysis.py:10 | `np.diff` has length `max(0, n - 1)`, and its element `i` is `xs[i+1] - xs[i]` |
| HrvAnalysis.RrIntervals | 03_HeartRate_Arduino/HRV_analysis.py:9-11 | there is one RR interval fewer than there are beats (none for no beats), and interval `i` is `beats[i+1] - beats[i]` |
| Stats.DiffNonNegative | 03_HeartRate_Arduino/HRV_analysis.py:10 | non-decreasing beat times give no negative interval |
| Stats.AccumulateDiff | 03_HeartRate_Arduino/HRV_analysis.py:10 | the first beat time and the intervals, accumulated, recover every beat time |
| Stats.DiffAccumulate | 03_HeartRate_Arduino/HRV_analysis.py:10 | beat times built by accumulating intervals from a start time give back exactly those intervals |
| Stats.SumDiff | 03_HeartRate_Arduino/HRV_analysis.py:10 | the intervals add up to the time from the first beat to the last |
| HrvAnalysis.RrIntervalsTimeReversal | 03_HeartRate_Arduino/HRV_analysis.py:10 | running the recording backwards gives the same intervals in reverse order |
| Stats.DiffZeroIff | 03_HeartRate_Arduino/HRV_analysis.py:17 | all successive differences are zero exactly when the sequence is constant |
| Stats.Variance | 03_HeartRate_Arduino/HRV_analysis.py:14 | the population variance is never negative |
| Stats.VarianceZeroIff | 03_HeartRate_Arduino/HRV_analysis.py:14 | the variance is zero exactly when all values are equal |
| Stats.VarianceReverse | 03_HeartRate_Arduino/HRV_analysis.py:14 | the variance does not depend on the order of the values |
| Stats.VarianceNegate | 03_HeartRate_Arduino/HRV_analysis.py:14 | the variance does not change when every value changes sign |
| Stats.MeanSquare | 03_HeartRate_Arduino/HRV_analysis.py:18 | the mean of squares is never negative |
| Stats.MeanSquareZeroIff | 03_HeartRate_Arduino/HRV_analysis.py:18 | the mean of squares is zero exactly when every value is zero |
| Stats.MeanSquareReverseNegate | 03_HeartRate_Arduino/HRV_analysis.py:18 | the mean of squares does not change when the values are reversed and negated |
| Stats.MeanSquareNegate | 03_HeartRate_Arduino/HRV_analysis.py:18 | the mean of squares does not change when every value changes sign |
| HrvAnalysis.SdnnSquared | 03_HeartRate_Arduino/HRV_analysis.py:13-14 | SDNN² in ms² is never negative, and it is zero exactly when all intervals are equal |
| HrvAnalysis.RmssdSquared | 03_HeartRate_Arduino/HRV_analysis.py:16-18 | RMSSD² in ms² (at least two intervals) is never negative, and it is zero exactly when all intervals are equal |
| HrvAnalysis.SquareRootUnique | 03_HeartRate_Arduino/HRV_analysis.py:18 | a non-negative square root is unique |
| HrvAnalysis.SquareRootZeroIff | 03_HeartRate_Arduino/HRV_analysis.py:18 | a square root is zero exactly when its square is |
| HrvAnalysis.SquareRootMilliseconds | 03_HeartRate_Arduino/HRV_analysis.py:14 | multiplying a root by 1000 multiplies its square by 1000² |
| HrvAnalysis.SdnnFromStandardDeviation | 03_HeartRate_Arduino/HRV_analysis.py:14 | 1000 times the standard deviation of the intervals is the square root of SDNN² |
| HrvAnalysis.RmssdFromRootMeanSquare | 03_HeartRate_Arduino/HRV_analysis.py:18 | 1000 times the root of the mean squared successive difference is the square root of RMSSD² |
| HrvAnalysis.SdnnZeroIff | 03_HeartRate_Arduino/HRV_analysis.py:14 | SDNN is zero exactly when all intervals are equal |
| HrvAnalysis.RmssdZeroIff | 03_HeartRate_Arduino/HRV_analysis.py:17-18 | RMSSD is zero exactly when all intervals are equal |
| HrvAnalysis.MetricsTimeReversal | 03_HeartRate_Arduino/HRV_analysis.py:13-18 | SDNN² and RMSSD² do not change when the recording is run backwards |
| HrvAnalysis.MetricsBeatOrderReversal | 03_HeartRate_Arduino/HRV_analysis.py:13-18 | SDNN² and RMSSD² do not change when the beats are listed in reverse order, although every interval changes sign |
| HrvAnalysis.AnalyzeBeats | 03_HeartRate_Arduino/HRV_analysis.py:24-30 | the analysis stops with "not enough beats" exactly when there are fewer than two beats; otherwise it reports the beat count, the intervals and SDNN², and it has an RMSSD² exactly when there are at least three beats |
| HrvAnalysis.Analyze | 03_HeartRate_Arduino/HRV_analysis.py:22-26 | a recording with fewer than two rows whose signal is 1.0 gives "not enough beats", and any other recording is analysed |
| HrvAnalysis.AnalyzeRegularRhythm | 03_HeartRate_Arduino/HRV_analysis.py:28-30 | evenly spaced beats give zero for both metrics |
| HrvAnalysis.AnalyzeIrregularRhythm | 03_HeartRate_Arduino/HRV_analysis.py:28-30 | unevenly spaced beats give positive metrics |
| HrvAnalysis.AnalyzeRegularExample | 03_HeartRate_Arduino/HRV_analysis.py:24-30 | beats at 0.0, 0.8, 1.6 and 2.4 s give intervals of 0.8 s and zero for both metrics |
| HrvAnalysis.AnalyzeIrregularExample | 03_HeartRate_Arduino/HRV_analysis.py:24-30 | beats at 0.0, 0.8, 1.5 and 2.4 s give intervals 0.8, 0.7 and 0.9 s, SDNN² = 20000/3 ms² (SDNN ≈ 81.6 ms) and RMSSD² = 25000 ms² (RMSSD ≈ 158.1 ms) |
| HrvAnalysis.AnalyzeTwoBeats | 03_HeartRate_Arduino/HRV_analysis.py:24-30 | two beats give one interval, SDNN² = 0 and no RMSSD |

## Left out

- File reading (`open`/`readlines`, `pd.read_csv`) is replaced by in-memory inputs: a sequence of lines and a sequence of rows. The errors for a missing file and for missing columns are not modelled.
- The module-level script in `01_PCR_simulator/pcr_simulator.py:21-26`, with its fixed file name and primer, is also not modelled. It is I/O around the modelled functions.
- Console output is not modelled: the messages from `main`, `np.round(..., 3)` and the `:.2f` formatting.
- Floating point is not modelled. The model computes over exact `real`s, so IEEE rounding in `np.std`, `np.mean` and the subtractions is outside it.
- PcrSimulator.IsWhitespace: covers the ASCII characters Python's `str.strip` removes but not the other Unicode whitespace characters (such as U+0085 or U+00A0), because the model has no Unicode tables.
- HrvAnalysis.SdnnSquared, HrvAnalysis.RmssdSquared: the square root is not computed, so the metrics are given squared. `IsSquareRoot` relates a value to its square but does not assert that a root exists, because a real square root would need an axiom.
- HrvAnalysis.SdnnSquared: requires at least one interval. `np.std` of an empty array is NaN, and the guard in `main` rules that case out.
- HrvAnalysis.RmssdSquared: requires at least two intervals. With exactly two beats the code computes the mean of an empty array, which is NaN; the model's outcome reports no RMSSD instead.
- `02_MitoPower_ATP_Tracker/mito_power.py` is not part of this model. It is driven by random draws, plotting and interactive input.

## Findings

| source | as written | input that shows it | evidently intended | confidence | as-written member | corrected member |
|---|---|---|---|---|---|---|
| 01_PCR_simulator/pcr_simulator.py:13-18 | `extend` reports failure in-band, as the text `Primer not found in sequence`, which is also a possible strand | primer `"Primer"` and strand `"Primer not found in sequence"`: the primer anneals at index 0, yet `extend` returns the failure text | a failure that no successful extension can be mistaken for, so that `extend` fails exactly when `anneal_primer` is false | low (a DNA strand will hardly contain that text); not executed | PcrSimulator.ExtendSentinelCollision | PcrSimulator.ExtendOrNone |
