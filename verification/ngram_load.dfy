/**
 Construction of an n-gram model (`ngram_score.__init__`): read `key count`
 lines, keep the last count per key, take the order L from the key of the
 last line, total the de-duplicated counts into N, replace every count `c`
 by `log10(c / N)` and set the floor to `log10(0.01 / N)`.

 The base-10 logarithm is a parameter `log10`; results that depend on its
 shape require it to be increasing (and to send 1 to 0) on positive reals,
 and `RecoverCounts` also takes a left inverse `exp10` of it on positive
 reals.
 */
module NgramLoad {
  import opened Wrappers
  import opened Text
  import opened Counts

  /** The exceptions `__init__` can raise, each with the line that raised it where there is one. */
  datatype LoadError =
    | UnpackError(line: nat)  // ValueError: the line does not split into exactly two fields
    | IntError(line: nat)     // ValueError: the count field is not an integer literal
    | UnboundKey              // UnboundLocalError: no line was read, so `key` has no value
    | ZeroDivision            // ZeroDivisionError: the counts total to 0
    | MathDomain              // ValueError: log10 of a ratio that is not positive

  /** A constructed scorer: log-probability table, order, total count and floor. */
  datatype Model = Model(ngrams: map<string, real>, L: nat, N: int, floor: real)

  /** `f` is strictly increasing on the positive reals. */
  ghost predicate Increasing(f: real -> real)
  {
    forall x, y :: 0.0 < x < y ==> f(x) < f(y)
  }

  /** `f` behaves like a logarithm where the model needs it to. */
  ghost predicate LogLike(f: real -> real)
  {
    Increasing(f) && f(1.0) == 0.0
  }

  /** `key, count = line.split(sep)` followed by `int(count)` for the line with index `i`. */
  function ParseLine(line: string, sep: char, i: nat): (r: Result<Record, LoadError>)
    ensures r.Err? ==> r.error == UnpackError(i) || r.error == IntError(i)
  {
    var fields := Split(line, sep);
    if |fields| != 2 then Err(UnpackError(i))
    else
      match ParseInt(fields[1])
      case None => Err(IntError(i))
      case Some(n) => Ok(Record(fields[0], n))
  }

  /** A line fails to unpack exactly when the separator does not occur in it exactly once. */
  lemma ParseLineUnpack(line: string, sep: char, i: nat)
    ensures ParseLine(line, sep, i) == Err(UnpackError(i)) <==> multiset(line)[sep] != 1
  {
    SplitCount(line, sep);
  }

  /**
   A line with exactly one separator is its key (the text before the
   separator) and a count text (the text after it); it parses exactly when
   the count text reads as an integer, and then to that key and integer.
   */
  lemma ParseLineFields(line: string, sep: char, i: nat, k: nat)
    requires multiset(line)[sep] == 1
    requires k < |line| && line[k] == sep
    ensures ParseLine(line, sep, i) ==
      match ParseInt(line[k + 1..])
      case None => Err(IntError(i))
      case Some(n) => Ok(Record(line[..k], n))
  {
    var fields := Split(line, sep);
    SplitCount(line, sep);
    SplitFieldsFree(line, sep);
    SplitJoin(line, sep);
    var f := |fields[0]|;
    assert line == fields[0] + [sep] + fields[1];
    assert line[..f] == fields[0];
    assert line[f + 1..] == fields[1];
    assert k == f;
  }

  /** A line written as key, separator, count and trailing whitespace reads back as that record. */
  lemma ParseLineRoundTrip(key: string, n: int, sep: char, tail: string, i: nat)
    requires sep !in key
    requires !IsDigit(sep) && sep != '-' && sep !in tail
    requires forall j :: 0 <= j < |tail| ==> IsSpace(tail[j])
    ensures ParseLine(key + [sep] + ShowInt(n) + tail, sep, i) == Ok(Record(key, n))
  {
    var rest := ShowInt(n) + tail;
    var line := key + [sep] + ShowInt(n) + tail;
    var k := |key|;
    assert line == key + [sep] + rest;
    assert line[k] == sep && line[..k] == key && line[k + 1..] == rest;
    assert multiset(line)[sep] == 1 by {
      assert multiset(line) == multiset(key) + multiset{sep} + multiset(rest);
      assert sep !in rest;
    }
    ParseShowRoundTrip(n, tail);
    ParseLineFields(line, sep, i, k);
  }

  /**
   The reading loop from line `i` on: it stops at the first empty string
   (end of file, which `readline` signals with "") and fails at the first
   line that does not parse.
   */
  function ParseFrom(lines: seq<string>, sep: char, i: nat): (r: Result<seq<Record>, LoadError>)
    requires i <= |lines|
    ensures r.Ok? ==> i + |r.value| <= |lines|
    decreases |lines| - i
  {
    if AtEnd(lines, i) then Ok([])
    else
      var head := ParseLine(lines[i], sep, i);
      if head.Err? then Err(head.error)
      else
        var tail := ParseFrom(lines, sep, i + 1);
        if tail.Err? then Err(tail.error)
        else Ok([head.value] + tail.value)
  }

  /** On success the records are exactly the parsed lines before the end of file. */
  lemma {:induction false} ParseFromOk(lines: seq<string>, sep: char, i: nat)
    requires i <= |lines|
    requires ParseFrom(lines, sep, i).Ok?
    ensures var recs := ParseFrom(lines, sep, i).value;
      && AtEnd(lines, i + |recs|)
      && forall j :: 0 <= j < |recs| ==> ReadsAs(lines, sep, i + j, recs[j])
    decreases |lines| - i
  {
    if !AtEnd(lines, i) {
      var head := ParseLine(lines[i], sep, i);
      var tail := ParseFrom(lines, sep, i + 1);
      assert head.Ok? && tail.Ok?;
      ParseFromOk(lines, sep, i + 1);
      var all := [head.value] + tail.value;
      assert ParseFrom(lines, sep, i).value == all;
      assert ReadsAs(lines, sep, i, all[0]);
      forall j | 1 <= j < |all| ensures ReadsAs(lines, sep, i + j, all[j]) {
        assert all[j] == tail.value[j - 1];
        assert ReadsAs(lines, sep, (i + 1) + (j - 1), tail.value[j - 1]);
      }
    }
  }

  /**
   On failure the error names the first line that does not parse, and
   every line before it is read and parses.
   */
  lemma {:induction false} ParseFromErr(lines: seq<string>, sep: char, i: nat)
    requires i <= |lines|
    requires ParseFrom(lines, sep, i).Err?
    ensures var e := ParseFrom(lines, sep, i).error;
      && (e.UnpackError? || e.IntError?)
      && i <= e.line < |lines|
      && !AtEnd(lines, e.line)
      && ParseLine(lines[e.line], sep, e.line) == Err(e)
      && forall j :: i <= j < e.line ==> Readable(lines, sep, j)
    decreases |lines| - i
  {
    var head := ParseLine(lines[i], sep, i);
    if head.Ok? {
      ParseFromErr(lines, sep, i + 1);
      assert Readable(lines, sep, i);
    }
  }

  /** Reading stops at line `k`: the lines are exhausted or `readline` returned "". */
  predicate AtEnd(lines: seq<string>, k: nat)
    requires k <= |lines|
  {
    k == |lines| || |lines[k]| == 0
  }

  /** Line `j` is read (it is not the end of file) and parses. */
  predicate Readable(lines: seq<string>, sep: char, j: int)
  {
    0 <= j < |lines| && |lines[j]| > 0 && ParseLine(lines[j], sep, j).Ok?
  }

  /** Line `j` is read (it is not the end of file) and parses to `rec`. */
  predicate ReadsAs(lines: seq<string>, sep: char, j: int, rec: Record)
  {
    0 <= j < |lines| && |lines[j]| > 0 && ParseLine(lines[j], sep, j) == Ok(rec)
  }

  /** Every record of the file, in file order; there is at most one per line. */
  function Records(lines: seq<string>, sep: char): (r: Result<seq<Record>, LoadError>)
    ensures r.Ok? ==> |r.value| <= |lines|
  {
    ParseFrom(lines, sep, 0)
  }

  /** The ratio `float(c) / N` that line 21 of ngram.py takes the logarithm of. */
  function Ratio(c: int, n: int): real
    requires n != 0
  {
    c as real / n as real
  }

  /**
   Lines 17-23 of the constructor for a count table `counts` whose total is
   `n` and an order `L`: every count `c` becomes `log10(c / n)` and the
   floor is `log10(0.01 / n)`. A zero total divides by zero; a ratio or
   floor argument that is not positive is outside log10's domain. A table
   is converted only if its total and all its counts are positive.
   */
  function Convert(counts: map<string, int>, n: int, L: nat, log10: real -> real): (r: Result<Model, LoadError>)
    ensures r == Err(ZeroDivision) <==> n == 0
    ensures r.Err? ==> r.error == ZeroDivision || r.error == MathDomain
    ensures r.Ok? ==>
      && n > 0
      && (forall k :: k in counts ==> counts[k] > 0)
      && r.value.ngrams.Keys == counts.Keys
      && (forall k :: k in counts ==> r.value.ngrams[k] == log10(Ratio(counts[k], n)))
      && r.value.floor == log10(0.01 / n as real)
      && r.value.N == n && r.value.L == L
  {
    if n == 0 then Err(ZeroDivision)
    else if exists k :: k in counts && Ratio(counts[k], n) <= 0.0 then Err(MathDomain)
    else if n < 0 then Err(MathDomain)
    else
      assert forall k :: k in counts ==> counts[k] > 0 by {
        forall k | k in counts ensures counts[k] > 0 {
          RatioPositive(counts[k], n);
        }
      }
      var table := map k | k in counts :: log10(Ratio(counts[k], n));
      Ok(Model(table, L, n, log10(0.01 / n as real)))
  }

  /**
   Lines 16-23 of the constructor, once every line has been read into
   `recs`. The order L is the length of the key of the LAST record; N is
   the sum of the de-duplicated table; every key keeps the count of the
   last record that wrote it, turned into `log10(count / N)`. With no
   record, `key` is unbound.
   */
  function FromRecords(recs: seq<Record>, log10: real -> real): (r: Result<Model, LoadError>)
    ensures |recs| == 0 <==> r == Err(UnboundKey)
    ensures r.Err? ==> r.error == UnboundKey || r.error == ZeroDivision || r.error == MathDomain
    ensures |recs| > 0 ==> (r == Err(ZeroDivision) <==> Total(recs) == 0)
    ensures r.Ok? ==>
      && |recs| > 0
      && r.value.L == |recs[|recs| - 1].key|
      && r.value.N == SumValues(Tally(recs))
      && r.value.N > 0
      && r.value.ngrams.Keys == KeysOf(recs)
      && (forall k :: k in r.value.ngrams ==>
            r.value.ngrams[k] == log10(Ratio(Tally(recs)[k], r.value.N)))
      && r.value.floor == log10(0.01 / r.value.N as real)
  {
    if |recs| == 0 then Err(UnboundKey)
    else Convert(Tally(recs), Total(recs), |recs[|recs| - 1].key|, log10)
  }

  /**
   `ngram_score(ngramfile, sep)` on a file whose `readline` results are
   `lines`: a line that does not parse aborts construction with that
   line's error and no model; otherwise the model is built from the
   records read.
   */
  function Build(lines: seq<string>, sep: char, log10: real -> real): (r: Result<Model, LoadError>)
    ensures Records(lines, sep).Err? ==> r == Err(Records(lines, sep).error)
    ensures Records(lines, sep).Ok? ==> r == FromRecords(Records(lines, sep).value, log10)
  {
    match Records(lines, sep)
    case Err(e) => Err(e)
    case Ok(recs) => FromRecords(recs, log10)
  }

  /** The record that a line which is read and parses stands for. */
  function LineRecord(lines: seq<string>, sep: char, j: int): Record
    requires Readable(lines, sep, j)
  {
    ParseLine(lines[j], sep, j).value
  }

  /** Line `n` is the end of file: it is the first line that `readline` returns as "" or the end of the lines. */
  predicate FirstEnd(lines: seq<string>, n: nat)
  {
    n <= |lines| && AtEnd(lines, n) && forall j :: 0 <= j < n ==> !AtEnd(lines, j)
  }

  /** The records of lines 0 to n - 1, each read and parsed, in file order. */
  function LinesRead(lines: seq<string>, sep: char, n: nat): (recs: seq<Record>)
    requires forall j :: 0 <= j < n ==> Readable(lines, sep, j)
    ensures |recs| == n
  {
    if n == 0 then [] else LinesRead(lines, sep, n - 1) + [LineRecord(lines, sep, n - 1)]
  }

  /** Line `j` is the last of lines 0 to n - 1 that writes its key. */
  predicate LastWriteBefore(lines: seq<string>, sep: char, n: nat, j: int)
    requires forall k :: 0 <= k < n ==> Readable(lines, sep, k)
  {
    0 <= j < n &&
    forall k :: j < k < n ==> LineRecord(lines, sep, k).key != LineRecord(lines, sep, j).key
  }

  /** The constructor leaves `key` unbound exactly when the first `readline` is already the end of file. */
  lemma BuildUnbound(lines: seq<string>, sep: char, log10: real -> real)
    ensures Build(lines, sep, log10) == Err(UnboundKey) <==> AtEnd(lines, 0)
  {
    var rs := Records(lines, sep);
    if rs.Ok? {
      ParseFromOk(lines, sep, 0);
      if |rs.value| > 0 {
        assert ReadsAs(lines, sep, 0, rs.value[0]);
      }
    } else {
      ParseFromErr(lines, sep, 0);
    }
  }

  /**
   An unpacking or integer error names line `j`: the first line before the
   end of file that does not parse. Every earlier line is read and parses.
   */
  lemma BuildLineError(lines: seq<string>, sep: char, log10: real -> real)
    requires Build(lines, sep, log10).Err?
    requires Build(lines, sep, log10).error.UnpackError? || Build(lines, sep, log10).error.IntError?
    ensures var e := Build(lines, sep, log10).error;
      && e.line < |lines|
      && !AtEnd(lines, e.line)
      && ParseLine(lines[e.line], sep, e.line) == Err(e)
      && forall k :: 0 <= k < e.line ==> Readable(lines, sep, k)
  {
    assert Records(lines, sep).Err?;
    ParseFromErr(lines, sep, 0);
  }

  /**
   Conversely, when line `j` is the first line before the end of file that
   does not parse, construction fails with that line's error.
   */
  lemma BuildFirstBadLine(lines: seq<string>, sep: char, log10: real -> real, j: nat)
    requires j < |lines| && !AtEnd(lines, j)
    requires forall k :: 0 <= k < j ==> Readable(lines, sep, k)
    requires ParseLine(lines[j], sep, j).Err?
    ensures Build(lines, sep, log10) == Err(ParseLine(lines[j], sep, j).error)
  {
    ParseFromStopsAt(lines, sep, 0, j);
  }

  lemma {:induction false} ParseFromStopsAt(lines: seq<string>, sep: char, i: nat, j: nat)
    requires i <= j < |lines| && !AtEnd(lines, j)
    requires forall k :: i <= k < j ==> Readable(lines, sep, k)
    requires ParseLine(lines[j], sep, j).Err?
    ensures ParseFrom(lines, sep, i) == Err(ParseLine(lines[j], sep, j).error)
    decreases j - i
  {
    if i < j {
      assert Readable(lines, sep, i);
      ParseFromStopsAt(lines, sep, i + 1, j);
    }
  }

  /**
   When the file reads without error up to its end at line `n`, the records
   are exactly the records of lines 0 to n - 1.
   */
  lemma RecordsAreLines(lines: seq<string>, sep: char, n: nat)
    requires FirstEnd(lines, n)
    requires Records(lines, sep).Ok?
    ensures forall j :: 0 <= j < n ==> Readable(lines, sep, j)
    ensures Records(lines, sep).value == LinesRead(lines, sep, n)
  {
    var recs := Records(lines, sep).value;
    ParseFromOk(lines, sep, 0);
    assert n < |recs| ==> ReadsAs(lines, sep, n, recs[n]);
    assert |recs| == n;
    forall j | 0 <= j < n ensures Readable(lines, sep, j) && recs[j] == LineRecord(lines, sep, j) {
      assert ReadsAs(lines, sep, j, recs[j]);
    }
    LinesReadAre(lines, sep, n, recs);
  }

  lemma {:induction false} LinesReadAre(lines: seq<string>, sep: char, n: nat, recs: seq<Record>)
    requires forall j :: 0 <= j < n ==> Readable(lines, sep, j)
    requires |recs| == n && forall j :: 0 <= j < n ==> recs[j] == LineRecord(lines, sep, j)
    ensures recs == LinesRead(lines, sep, n)
  {
    if n > 0 {
      LinesReadAre(lines, sep, n - 1, recs[..n - 1]);
      assert recs == recs[..n - 1] + [recs[n - 1]];
    }
  }

  /**
   A model built from a file whose end is line `n`: at least one line was
   read, every line before the end parses, and the model is built from the
   records of those lines. L is the length of the key on line n - 1, and N
   totals those records.
   */
  lemma BuildOk(lines: seq<string>, sep: char, log10: real -> real, n: nat)
    requires FirstEnd(lines, n)
    requires Build(lines, sep, log10).Ok?
    ensures n > 0
    ensures forall j :: 0 <= j < n ==> Readable(lines, sep, j)
    ensures Build(lines, sep, log10) == FromRecords(LinesRead(lines, sep, n), log10)
    ensures Build(lines, sep, log10).value.L == |LineRecord(lines, sep, n - 1).key|
    ensures Build(lines, sep, log10).value.N == Total(LinesRead(lines, sep, n))
  {
    assert Records(lines, sep).Ok?;
    RecordsAreLines(lines, sep, n);
  }

  /** The keys of a model built from a file whose end is line `n` are the keys of lines 0 to n - 1. */
  lemma BuildOkKey(lines: seq<string>, sep: char, log10: real -> real, n: nat, key: string)
    requires FirstEnd(lines, n)
    requires Build(lines, sep, log10).Ok?
    ensures forall j :: 0 <= j < n ==> Readable(lines, sep, j)
    ensures key in Build(lines, sep, log10).value.ngrams <==>
      exists j :: 0 <= j < n && LineRecord(lines, sep, j).key == key
  {
    BuildOk(lines, sep, log10, n);
    LinesReadKey(lines, sep, n, key);
  }

  /** A key is among the records of lines 0 to n - 1 exactly when one of those lines has it. */
  lemma LinesReadKey(lines: seq<string>, sep: char, n: nat, key: string)
    requires forall j :: 0 <= j < n ==> Readable(lines, sep, j)
    ensures key in KeysOf(LinesRead(lines, sep, n)) <==>
      exists j :: 0 <= j < n && LineRecord(lines, sep, j).key == key
  {
    var recs := LinesRead(lines, sep, n);
    LinesReadAt(lines, sep, n);
    if key in KeysOf(recs) {
      var r :| r in recs && r.key == key;
      var j :| 0 <= j < n && recs[j] == r;
      assert LineRecord(lines, sep, j).key == key;
    }
    if exists j :: 0 <= j < n && LineRecord(lines, sep, j).key == key {
      var j :| 0 <= j < n && LineRecord(lines, sep, j).key == key;
      assert recs[j] in recs;
    }
  }

  /**
   In a model built from a file whose end is line `n`, the key of the last
   line `j` that writes it holds log10 of line j's count over N.
   */
  lemma BuildOkValue(lines: seq<string>, sep: char, log10: real -> real, n: nat, j: int)
    requires FirstEnd(lines, n)
    requires Build(lines, sep, log10).Ok?
    requires forall k :: 0 <= k < n ==> Readable(lines, sep, k)
    requires LastWriteBefore(lines, sep, n, j)
    ensures var m := Build(lines, sep, log10).value;
      LineRecord(lines, sep, j).key in m.ngrams &&
      m.ngrams[LineRecord(lines, sep, j).key] == log10(Ratio(LineRecord(lines, sep, j).count, m.N))
  {
    BuildOk(lines, sep, log10, n);
    var recs := LinesRead(lines, sep, n);
    LinesReadAt(lines, sep, n);
    assert IsLastWrite(recs, j);
    TallyAtLastWrite(recs, j);
  }

  lemma {:induction false} LinesReadAt(lines: seq<string>, sep: char, n: nat)
    requires forall j :: 0 <= j < n ==> Readable(lines, sep, j)
    ensures forall j :: 0 <= j < n ==> LinesRead(lines, sep, n)[j] == LineRecord(lines, sep, j)
  {
    if n > 0 {
      LinesReadAt(lines, sep, n - 1);
    }
  }

  lemma RatioPositive(c: int, n: int)
    requires n > 0
    ensures Ratio(c, n) > 0.0 <==> c > 0
  {
    assert Ratio(c, n) * n as real == c as real;
  }

  lemma RatioLess(c1: int, c2: int, n: int)
    requires n > 0 && c1 < c2
    ensures Ratio(c1, n) < Ratio(c2, n)
  {
    assert Ratio(c2, n) - Ratio(c1, n) == (c2 - c1) as real / n as real;
  }

  lemma RatioSelf(n: int)
    requires n > 0
    ensures Ratio(n, n) == 1.0
  {
    var d := n as real;
    assert d / d * d == 1.0 * d;
  }

  lemma DivLess(a: real, b: real, d: real)
    requires 0.0 < d && a < b
    ensures a / d < b / d
  {
    assert b / d - a / d == (b - a) / d;
  }

  /**
   A non-empty table whose total is the sum of its counts is converted
   exactly when every count is positive.
   */
  lemma ConvertSucceedsIff(counts: map<string, int>, n: int, L: nat, log10: real -> real)
    requires |counts| > 0 && n == SumValues(counts)
    ensures Convert(counts, n, L, log10).Ok? <==> forall k :: k in counts ==> counts[k] > 0
  {
    if forall k :: k in counts ==> counts[k] > 0 {
      SumValuesPositive(counts);
      forall k | k in counts ensures Ratio(counts[k], n) > 0.0 {
        RatioPositive(counts[k], n);
      }
    }
  }

  /**
   Construction from the records succeeds exactly when there is at least
   one record and every key's surviving count is positive.
   */
  lemma FromRecordsSucceedsIff(recs: seq<Record>, log10: real -> real)
    ensures FromRecords(recs, log10).Ok? <==>
      |recs| > 0 && forall k :: k in Tally(recs) ==> Tally(recs)[k] > 0
  {
    if |recs| > 0 {
      assert recs[0].key in Tally(recs);
      ConvertSucceedsIff(Tally(recs), Total(recs), |recs[|recs| - 1].key|, log10);
    }
  }

  /** Each converted entry is log10 of its own key's count over N. */
  lemma EntryOfKey(counts: map<string, int>, n: int, L: nat, log10: real -> real, k: string)
    requires Convert(counts, n, L, log10).Ok?
    requires k in counts
    ensures Convert(counts, n, L, log10).value.ngrams[k] == log10(Ratio(counts[k], n))
  {
  }

  /**
   With an increasing logarithm, the floor is strictly below every stored
   value: every count is at least 1, so every ratio is at least 1/N, which
   is more than 0.01/N.
   */
  lemma FloorBelowEntries(counts: map<string, int>, n: int, L: nat, log10: real -> real)
    requires Convert(counts, n, L, log10).Ok?
    requires Increasing(log10)
    ensures var m := Convert(counts, n, L, log10).value;
      forall k :: k in m.ngrams ==> m.floor < m.ngrams[k]
  {
    var m := Convert(counts, n, L, log10).value;
    forall k | k in m.ngrams ensures m.floor < m.ngrams[k] {
      EntryOfKey(counts, n, L, log10, k);
      var nr := n as real;
      DivLess(0.01, counts[k] as real, nr);
      RatioPositive(1, n);
    }
  }

  /**
   With an increasing logarithm, stored values are ordered as their counts
   are: one key's value is below another's exactly when its count is.
   */
  lemma EntriesFollowCounts(counts: map<string, int>, n: int, L: nat, log10: real -> real, k1: string, k2: string)
    requires Convert(counts, n, L, log10).Ok?
    requires Increasing(log10)
    requires k1 in counts && k2 in counts
    ensures var m := Convert(counts, n, L, log10).value;
      m.ngrams[k1] < m.ngrams[k2] <==> counts[k1] < counts[k2]
  {
    EntryOfKey(counts, n, L, log10, k1);
    EntryOfKey(counts, n, L, log10, k2);
    RatioPositive(counts[k1], n);
    RatioPositive(counts[k2], n);
    if counts[k1] < counts[k2] {
      RatioLess(counts[k1], counts[k2], n);
    } else if counts[k2] < counts[k1] {
      RatioLess(counts[k2], counts[k1], n);
    }
  }

  /** With a logarithm that is increasing and sends 1 to 0, the floor is below 0. */
  lemma FloorNegative(counts: map<string, int>, n: int, L: nat, log10: real -> real)
    requires Convert(counts, n, L, log10).Ok?
    requires LogLike(log10)
    ensures Convert(counts, n, L, log10).value.floor < 0.0
  {
    DivLess(0.01, n as real, n as real);
    RatioSelf(n);
    LogBelowOne(log10, 0.01 / n as real);
  }

  /**
   With a logarithm that is increasing and sends 1 to 0, and a total that
   is the sum of the counts, every stored value is at most 0: they are
   log-probabilities.
   */
  lemma EntriesNonPositive(counts: map<string, int>, n: int, L: nat, log10: real -> real, k: string)
    requires Convert(counts, n, L, log10).Ok?
    requires n == SumValues(counts)
    requires LogLike(log10)
    requires k in counts
    ensures Convert(counts, n, L, log10).value.ngrams[k] <= 0.0
  {
    EntryOfKey(counts, n, L, log10, k);
    SumValuesBounds(counts, k);
    RatioAtMostOne(counts[k], n);
    LogBelowOne(log10, Ratio(counts[k], n));
  }

  lemma RatioAtMostOne(c: int, n: int)
    requires 0 < c <= n
    ensures 0.0 < Ratio(c, n) <= 1.0
  {
    RatioPositive(c, n);
    RatioSelf(n);
    if c < n {
      RatioLess(c, n, n);
    }
  }

  lemma LogBelowOne(log10: real -> real, p: real)
    requires LogLike(log10)
    requires 0.0 < p <= 1.0
    ensures log10(p) <= 0.0
    ensures p < 1.0 ==> log10(p) < 0.0
  {
  }

  /**
   The log-probabilities determine the counts: with an inverse `exp10` of
   log10 on the positive reals, `exp10(value) * N` gives back each key's
   count.
   */
  lemma RecoverCounts(counts: map<string, int>, n: int, L: nat, log10: real -> real, exp10: real -> real)
    requires Convert(counts, n, L, log10).Ok?
    requires forall x :: 0.0 < x ==> exp10(log10(x)) == x
    ensures var m := Convert(counts, n, L, log10).value;
      forall k :: k in m.ngrams ==> exp10(m.ngrams[k]) * m.N as real == counts[k] as real
  {
    var m := Convert(counts, n, L, log10).value;
    forall k | k in m.ngrams ensures exp10(m.ngrams[k]) * m.N as real == counts[k] as real {
      EntryOfKey(counts, n, L, log10, k);
      var nr := n as real;
      var c := counts[k] as real;
      assert exp10(m.ngrams[k]) == c / nr;
    }
  }

  /**
   A model fit for scoring: the floor is below 0 and below every stored
   value, and no stored value is above 0.
   */
  ghost predicate Calibrated(m: Model)
  {
    && m.floor < 0.0
    && forall k :: k in m.ngrams ==> m.floor < m.ngrams[k] <= 0.0
  }

  /** Every model the constructor returns is calibrated, for a logarithm that is increasing and sends 1 to 0. */
  lemma BuiltModelCalibrated(recs: seq<Record>, log10: real -> real)
    requires FromRecords(recs, log10).Ok?
    requires LogLike(log10)
    ensures Calibrated(FromRecords(recs, log10).value)
  {
    var counts := Tally(recs);
    var n := Total(recs);
    var L := |recs[|recs| - 1].key|;
    assert FromRecords(recs, log10) == Convert(counts, n, L, log10);
    ConvertedCalibrated(counts, n, L, log10);
  }

  lemma ConvertedCalibrated(counts: map<string, int>, n: int, L: nat, log10: real -> real)
    requires Convert(counts, n, L, log10).Ok?
    requires n == SumValues(counts)
    requires LogLike(log10)
    ensures Calibrated(Convert(counts, n, L, log10).value)
  {
    var m := Convert(counts, n, L, log10).value;
    FloorBelowEntries(counts, n, L, log10);
    FloorNegative(counts, n, L, log10);
    forall k | k in m.ngrams ensures m.ngrams[k] <= 0.0 {
      EntriesNonPositive(counts, n, L, log10, k);
    }
  }
}
