# ngram_score in Dafny

A model of `ngram_score` from `ngram.py`, the n-gram fitness scorer of the
course notebooks. The class has two parts:

- the constructor, which reads a file of `key count` lines into a table of
  base-10 log-probabilities together with an order L, a total N and a floor;
- the call, which scores a text by sliding a window of length L over it and
  adding each window's log-probability, or the floor when the window is not
  in the table.

Modules:

- `Wrappers`: `Option` and `Result`.
- `Text`: `str.split` on a one-character separator, `int()` on a decimal
  literal, and printing of integers (used to state round trips).
- `Counts`: the records read, the dictionary they build (a later line
  overwrites an earlier one with the same key), its insertion order, and
  `sum(d.values())`.
- `NgramLoad`: the constructor. `Build` maps the sequence of `readline`
  results to either a `Model` or the exception the constructor raises.
- `NgramScore`: the call. `Score` is the reference sum over windows, and
  `ScoreText` is the loop as ngram.py writes it.
- `Scenarios`: worked examples on small files and texts.

Floating-point numbers are exact reals. `math.log10` is a parameter
`log10: real -> real`. A property that depends on the logarithm's shape
states what it assumes: that it is strictly increasing on positive reals
(`Increasing`), that it sends 1 to 0 (`LogLike`), or, for
`NgramLoad.RecoverCounts`, that a second parameter `exp10` is a left
inverse of it on positive reals (`exp10(log10(x)) == x`).

What the constructor does with unusual files:

- L is the length of the key read on the last line. Line 16 runs after the
  reading loop, when `key` still holds that line's key.
- An empty file never binds `key`, so line 16 raises UnboundLocalError
  (`UnboundKey`). The division by N is never reached.
- Counts may be zero or negative, since `int()` accepts both.
  - Counts that total 0 raise ZeroDivisionError at line 21.
  - A zero or negative count with a positive total raises a math-domain
    ValueError from `log10` at line 21.
  - A negative total also raises that ValueError: at line 21 for the first
    key whose count is at least 0, or at line 23 when every count is
    negative.
- N sums the de-duplicated table. A key that appears twice adds only its
  last count.

## Model

| member | source | states |
|---|---|---|
| Text.SplitCount | ngram.py:12 | `line.split(sep)` yields one field more than the number of separators in the line, so unpacking into two names needs exactly one separator |
| Text.SplitFieldsFree | ngram.py:12 | no field produced by the split contains the separator |
| Text.SplitJoin | ngram.py:12 | joining the fields with the separator gives back the line, so the split loses nothing |
| Text.Split | ngram.py:12 | `str.split` on a one-character separator always yields at least one field |
| Text.ParseInt | ngram.py:13 | `int()` of a field, either an integer or a failure; `Text.ParseIntShape` states when it succeeds, and `Text.ParseShowRoundTrip` that it reads printed integers back |
| Text.ParseIntShape | ngram.py:13 | `int(count)` succeeds exactly when the field, once surrounding whitespace is stripped, is an optional sign followed by at least one decimal digit |
| Text.ParseShowRoundTrip | ngram.py:13 | `int()` reads back any printed integer, with or without a trailing newline or other whitespace |
| Counts.Tally | ngram.py:7-14 | the dictionary filled by the loop has exactly the keys that were read |
| Counts.TallyAtLastWrite | ngram.py:13 | each key holds the count of the last line that wrote it |
| Counts.TallyLastWrite | ngram.py:9-14 | every key in the dictionary has a last line writing it, and the dictionary holds that line's count |
| Counts.KeyOrder | ngram.py:20 | the dictionary iterates over each distinct key exactly once |
| Counts.SumOverIsSumValues | ngram.py:17 | adding the values in any duplicate-free key order gives the same sum |
| Counts.Total | ngram.py:17 | N is the sum of the values of the de-duplicated dictionary |
| Counts.TotalAppend | ngram.py:13-17 | one more line changes N by its count minus the count it overwrites |
| Counts.SumValuesBounds | ngram.py:17-21 | when every count is positive, each count is positive and at most N, the sum of all counts |
| NgramLoad.ParseLine | ngram.py:12-13 | a line fails only with an unpacking or integer error, and the error names that line |
| NgramLoad.ParseLineUnpack | ngram.py:12 | the unpacking error happens exactly when the separator does not occur exactly once |
| NgramLoad.ParseLineFields | ngram.py:12-13 | for a line with one separator, the key is the text before it and the count is `int()` of the text after it |
| NgramLoad.ParseLineRoundTrip | ngram.py:12-13 | a written `key<sep>count` line with trailing whitespace reads back as that key and count |
| NgramLoad.ParseFrom | ngram.py:9-14 | the reading loop from line i: on success it yields at most one record per remaining line; `NgramLoad.ParseFromOk` and `NgramLoad.ParseFromErr` characterise its results |
| NgramLoad.Records | ngram.py:9-14 | the reading loop over the whole file yields at most one record per line |
| NgramLoad.ParseFromOk | ngram.py:9-14 | on success, the records are the lines before the first empty `readline` result, each parsed, in file order |
| NgramLoad.ParseFromErr | ngram.py:9-14 | on failure, the error comes from the first line that does not parse; every line before it parses and none is end-of-file |
| NgramLoad.Convert | ngram.py:17-23 | a total of 0 is a division error; any other failure is a log10 domain error; success needs a positive total and positive counts, and yields `log10(c/N)` per key and the floor `log10(0.01/N)` |
| NgramLoad.FromRecords | ngram.py:16-23 | no records means an unbound key, and every other failure is a division or log10 domain error; a built model has L = length of the last key, N = sum of the de-duplicated counts, the keys read, and `log10(count/N)` per key |
| NgramLoad.Build | ngram.py:5-23 | `ngram_score(ngramfile, sep)` on the `readline` results, giving a model or the exception raised; `NgramLoad.BuildUnbound`, `NgramLoad.BuildLineError`, `NgramLoad.BuildFirstBadLine`, `NgramLoad.BuildOk`, `NgramLoad.BuildOkKey` and `NgramLoad.BuildOkValue` state its results in terms of the lines |
| NgramLoad.BuildUnbound | ngram.py:9-16 | construction fails with an unbound key exactly when the first `readline` result is already the end of file |
| NgramLoad.BuildLineError | ngram.py:9-14 | an unpacking or integer error names line j, the first line before the end of file that does not parse; every earlier line is read and parses |
| NgramLoad.BuildFirstBadLine | ngram.py:9-14 | conversely, when line j is the first line before the end of file that does not parse, construction fails with that line's error |
| NgramLoad.BuildOk | ngram.py:5-23 | a model built from a file whose end of file is at line n: n > 0, every line before n parses, the model is built from the records of lines 0 to n-1, L is the length of line n-1's key, and N totals those records |
| NgramLoad.BuildOkKey | ngram.py:9-20 | the keys of a built model are exactly the keys on lines 0 to n-1 |
| NgramLoad.BuildOkValue | ngram.py:13-21 | in a built model, the key of the last line j that writes it holds `log10(count_j / N)` |
| NgramLoad.LinesReadKey | ngram.py:9-13 | a key is among the records of lines 0 to n-1 exactly when one of those lines carries it |
| NgramLoad.ConvertSucceedsIff | ngram.py:17-23 | for a non-empty table whose total is its sum, conversion succeeds exactly when every count is positive |
| NgramLoad.FromRecordsSucceedsIff | ngram.py:16-23 | construction from the records succeeds exactly when at least one line was read and every surviving count is positive |
| NgramLoad.FloorBelowEntries | ngram.py:21-23 | for an increasing logarithm, the floor is strictly below every stored log-probability, since 0.01 < every count |
| NgramLoad.EntriesFollowCounts | ngram.py:20-21 | for an increasing logarithm, one key's log-probability is below another's exactly when its count is |
| NgramLoad.FloorNegative | ngram.py:23 | the floor is below 0 |
| NgramLoad.EntriesNonPositive | ngram.py:17-21 | every stored log-probability is at most 0, because each count is at most N |
| NgramLoad.RecoverCounts | ngram.py:21 | with an inverse of the logarithm, every stored value gives back its count: `10^v * N == c` |
| NgramLoad.ConvertedCalibrated | ngram.py:17-23 | a converted table is fit for scoring: floor < 0, and floor < every value <= 0 |
| NgramLoad.BuiltModelCalibrated | ngram.py:16-23 | every model the constructor returns is fit for scoring, in the same sense |
| NgramScore.Windows | ngram.py:29-30 | there are `len(text) - L + 1` windows, or none when the text is shorter than L |
| NgramScore.WindowsAt | ngram.py:29-30 | for every offset i at once, the window at i is `text[i:i+L]` |
| NgramScore.WindowAt | ngram.py:29-30 | the window at offset i is `text[i:i+L]` |
| NgramScore.Contribution | ngram.py:30-33 | one window adds either the floor or a stored value; for a calibrated model it lies between the floor and 0, and equals the floor exactly when the window is not a key |
| NgramScore.Score | ngram.py:25-34 | a text shorter than L scores 0 |
| NgramScore.ScoreText | ngram.py:25-34 | the loop over `range(len(text) - L + 1)` returns the sum over windows of the stored value or the floor |
| NgramScore.ScoreExtend | ngram.py:29-33 | one more character adds exactly the contribution of the one new window that ends at it |
| NgramScore.SumAtLeastFloor | ngram.py:30-33 | each window adds at least the floor, and the sum equals floor times count exactly when no window is a key |
| NgramScore.SumFloorBound | ngram.py:30-33 | with the floor below every stored value, the windows together add at least floor times their number |
| NgramScore.SumFloorExact | ngram.py:30-33 | that bound is reached exactly when no window is a key |
| NgramScore.SumAllUnseen | ngram.py:32-33 | when no window is a key, every window adds the floor, so the sum is floor times their number |
| NgramScore.SumAboveFloor | ngram.py:30-31 | a single window that is a key lifts the sum strictly above floor times the number of windows |
| NgramScore.WindowsMiss | ngram.py:29-30 | no window is a key exactly when no length-L slice of the text is a key |
| NgramScore.ScoreAtLeastFloor | ngram.py:29-33 | a text scores at least floor times its number of windows, with equality exactly when none of its windows is a key |
| NgramScore.ScoreNonPositive | ngram.py:29-33 | with the floor and all stored values at most 0, every score is at most 0 |
| NgramScore.CalibratedScoreBounds | ngram.py:25-34 | for a model fit for scoring, floor times number of windows <= score <= 0, with the lower bound reached exactly when no window is a key |
| Scenarios.ReadBigramFile | ngram.py:9-14 | the file `AB 3`, `AC 1` reads as two records, in order |
| Scenarios.BigramModel | ngram.py:16-23 | that file gives L = 2, N = 4, the table {AB: log10(0.75), AC: log10(0.25)} and the floor log10(0.0025) |
| Scenarios.BuildBigramFile | ngram.py:5-23 | the constructor accepts that file and builds that model |
| Scenarios.BigramScore | ngram.py:25-34 | "ABAC" scores log10(0.75) + log10(0.0025) + log10(0.25); the unseen window BA adds the floor |
| Scenarios.RepeatedKey | ngram.py:13-21 | a key read twice keeps its last count, and N adds only that count |
| Scenarios.OrderFromLastKey | ngram.py:16 | keys of lengths 1 and then 3 give L = 3 |
| Scenarios.RejectedFiles | ngram.py:9-16 | a line without the separator is an unpacking error; a file that is empty, or whose first `readline` is "", leaves the key unbound |
| Scenarios.NonNumericCount | ngram.py:13 | a count field with no digit is an integer error |
| Scenarios.SeparatorInCount | ngram.py:13 | `int("3\x1c\n")` fails: `int()` does not skip the \x1c separator |
| Scenarios.SeparatorAfterCount | ngram.py:12-13 | the line `AB 3\x1c\n` is an integer error on its own line, since its count field does not parse |
| Scenarios.RejectedCountText | ngram.py:9-14 | reading stops at the first bad line, with that line's error |
| Scenarios.CancellingCounts | ngram.py:17-21 | counts 1 and -1 total 0 and raise the division error |
| Scenarios.ZeroCount | ngram.py:20-21 | a zero count with a positive total raises the log10 domain error |
| Scenarios.NegativeTotal | ngram.py:17-21 | counts 1 and -3 total -2, and `log10(1/-2)` raises the log10 domain error at line 21 |

## Left out

- File I/O (`open`, `readline`, closing the file): the file is modelled as the sequence of strings `readline` returns, and the first empty string marks end of file.
- Floating-point rounding, overflow and underflow: the model computes with exact reals, and `math.log10` is a parameter. Results hold for any logarithm with the stated shape, not for IEEE doubles.
- Text.ParseIntShape: describes `int()` on ASCII strings only. Digit separators (`1_000`) and non-ASCII digits and whitespace, which Python's `int()` also accepts, are not modelled; neither is a non-ASCII string, in which `int()` also treats \x1c to \x1f as whitespace. Python's `int()` raises ValueError on a literal of more than `sys.get_int_max_str_digits()` digits (4300 by default); the model accepts any length.
- Text.ParseShowRoundTrip: holds for integers of any length, while Python's `str()` and `int()` refuse more than 4300 digits by default. Such counts would in any case overflow `float()` at line 21.
- NgramLoad.ParseLineRoundTrip: holds for counts of any length, with the same 4300-digit gap as `Text.ParseShowRoundTrip`.
- NgramLoad.ParseLine: the separator is a single character. Python's `split` also takes a multi-character separator, and rejects an empty one with ValueError. `sep=None` is not modelled either: Python then splits on runs of whitespace and drops empty fields, so `"AB  3\n"` loads as key AB and count 3, where the model's split on `' '` gives an unpacking error. `sep` defaults to `' '` (ngram.py:5); `NgramLoad.Build` takes the separator as an explicit argument and has no default.
- NgramScore.ScoreText: returns the real 0.0 where Python returns the integer 0 for a text with no windows. The two are equal as numbers.
- The local binding `ngrams = self.ngrams.__getitem__` (line 28) is an ordinary table lookup in the model.
- The order of the log10 errors among keys at line 20: every non-positive ratio raises the same ValueError, so the model does not record which key raised it.
