/**
 Worked examples of the scorer on small inputs: a two-line bigram file, a
 repeated key, and the files the constructor rejects. The logarithm stays a
 parameter, so the expected values are written with `log10` applied to
 exact ratios.
 */
module Scenarios {
  import opened Wrappers
  import opened Text
  import opened Counts
  import opened NgramLoad
  import opened NgramScore

  /** A printed `key count` line with a line end parses back to its record. */
  lemma PrintedLine(key: string, n: int, text: string, i: nat)
    requires ' ' !in key
    requires text == key + " " + ShowInt(n) + "\n"
    ensures ParseLine(text, ' ', i) == Ok(Record(key, n))
  {
    ParseLineRoundTrip(key, n, ' ', "\n", i);
    assert key + [' '] + ShowInt(n) + "\n" == text;
  }

  /** The file "AB 3\nAC 1\n" reads as two records, in file order. */
  lemma ReadBigramFile()
    ensures Records(["AB 3\n", "AC 1\n"], ' ') == Ok([Record("AB", 3), Record("AC", 1)])
  {
    var lines := ["AB 3\n", "AC 1\n"];
    assert ShowInt(3) == "3" && ShowInt(1) == "1";
    PrintedLine("AB", 3, lines[0], 0);
    PrintedLine("AC", 1, lines[1], 1);
    assert AtEnd(lines, 2);
    ReadStep(lines, ' ', 1, Record("AC", 1), []);
    assert [Record("AC", 1)] + [] == [Record("AC", 1)];
    ReadStep(lines, ' ', 0, Record("AB", 3), [Record("AC", 1)]);
    assert [Record("AB", 3)] + [Record("AC", 1)] == [Record("AB", 3), Record("AC", 1)];
  }

  /** One step of the reading loop: a line that parses is put in front of the records after it. */
  lemma ReadStep(lines: seq<string>, sep: char, i: nat, r: Record, rs: seq<Record>)
    requires i < |lines| && |lines[i]| > 0
    requires ParseLine(lines[i], sep, i) == Ok(r)
    requires ParseFrom(lines, sep, i + 1) == Ok(rs)
    ensures ParseFrom(lines, sep, i) == Ok([r] + rs)
  {
  }

  /** Two records with distinct keys tally to both counts. */
  lemma TallyTwo(r1: Record, r2: Record)
    requires r1.key != r2.key
    ensures Tally([r1, r2]) == map[r1.key := r1.count, r2.key := r2.count]
  {
    assert [r1, r2][..1] == [r1];
    assert [r1][..0] == [];
  }

  /** The sum of a two-key table is the sum of its two values. */
  lemma SumTwo(k1: string, c1: int, k2: string, c2: int)
    requires k1 != k2
    ensures SumValues(map[k1 := c1, k2 := c2]) == c1 + c2
  {
    var m := map[k1 := c1, k2 := c2];
    SumValuesRemove(m, k1);
    assert m - {k1} == map[k2 := c2];
    SumValuesRemove(map[k2 := c2], k2);
    assert map[k2 := c2] - {k2} == map[];
  }

  /** The constructor on records that have been read, as a conversion of their tally. */
  lemma FromRecordsConverts(recs: seq<Record>, log10: real -> real)
    requires |recs| > 0
    ensures FromRecords(recs, log10) == Convert(Tally(recs), Total(recs), |recs[|recs| - 1].key|, log10)
  {
  }

  /** Converting a two-key table with positive counts and their sum as total. */
  lemma ConvertTwo(k1: string, c1: int, k2: string, c2: int, L: nat, log10: real -> real)
    requires k1 != k2 && c1 > 0 && c2 > 0
    ensures var n := c1 + c2;
      Convert(map[k1 := c1, k2 := c2], n, L, log10) ==
      Ok(Model(map[k1 := log10(Ratio(c1, n)), k2 := log10(Ratio(c2, n))], L, n, log10(0.01 / n as real)))
  {
    var n := c1 + c2;
    var counts := map[k1 := c1, k2 := c2];
    RatioPositive(c1, n);
    RatioPositive(c2, n);
    assert !exists k :: k in counts && Ratio(counts[k], n) <= 0.0;
    var r := Convert(counts, n, L, log10);
    assert r.Ok?;
    assert r.value.ngrams == map[k1 := log10(Ratio(c1, n)), k2 := log10(Ratio(c2, n))];
  }

  /** Two records with distinct keys build the conversion of their two counts, with order taken from the second key. */
  lemma FromTwoRecords(r1: Record, r2: Record, log10: real -> real)
    requires r1.key != r2.key
    ensures FromRecords([r1, r2], log10) ==
      Convert(map[r1.key := r1.count, r2.key := r2.count], r1.count + r2.count, |r2.key|, log10)
  {
    var recs := [r1, r2];
    calc {
      FromRecords(recs, log10);
      { FromRecordsConverts(recs, log10); }
      Convert(Tally(recs), Total(recs), |recs[1].key|, log10);
      { TallyTwo(r1, r2); TotalTwo(r1, r2); }
      Convert(map[r1.key := r1.count, r2.key := r2.count], r1.count + r2.count, |r2.key|, log10);
    }
  }

  /** Two records with distinct keys total to the sum of their counts. */
  lemma TotalTwo(r1: Record, r2: Record)
    requires r1.key != r2.key
    ensures Total([r1, r2]) == r1.count + r2.count
  {
    TallyTwo(r1, r2);
    SumTwo(r1.key, r1.count, r2.key, r2.count);
  }

  /**
   The bigram file gives L = 2, N = 4, the table {AB: log10(3/4), AC:
   log10(1/4)} and the floor log10(0.01/4).
   */
  lemma BigramModel(log10: real -> real)
    ensures var r := FromRecords([Record("AB", 3), Record("AC", 1)], log10);
      && r.Ok?
      && r.value.L == 2 && r.value.N == 4
      && r.value.ngrams == map["AB" := log10(0.75), "AC" := log10(0.25)]
      && r.value.floor == log10(0.0025)
  {
    FromTwoRecords(Record("AB", 3), Record("AC", 1), log10);
    ConvertTwo("AB", 3, "AC", 1, 2, log10);
    assert Ratio(3, 4) == 0.75 && Ratio(1, 4) == 0.25 && 0.01 / 4.0 == 0.0025;
  }

  /** "ABAC" has the windows AB, BA, AC, in that order. */
  lemma WindowsOfABAC()
    ensures Windows(2, "ABAC") == ["AB", "BA", "AC"]
  {
    var ws := Windows(2, "ABAC");
    assert |ws| == 3;
    WindowAt(2, "ABAC", 0);
    assert ws[0] == "ABAC"[0..2] == "AB";
    WindowAt(2, "ABAC", 1);
    assert ws[1] == "ABAC"[1..3] == "BA";
    WindowAt(2, "ABAC", 2);
    assert ws[2] == "ABAC"[2..4] == "AC";
  }

  /** With AB and AC stored and BA not, "ABAC" scores AB's value, the floor, then AC's value. */
  lemma ScoreOfABAC(m: Model)
    requires m.L == 2 && "AB" in m.ngrams && "AC" in m.ngrams && "BA" !in m.ngrams
    ensures Score(m, "ABAC") == m.ngrams["AB"] + m.floor + m.ngrams["AC"]
  {
    WindowsOfABAC();
    var ws := ["AB", "BA", "AC"];
    assert ws[..2] == ["AB", "BA"];
    assert ws[..2][..1] == ["AB"];
    assert ws[..2][..1][..0] == [];
    assert SumContributions(m, ["AB"]) == m.ngrams["AB"];
    assert SumContributions(m, ["AB", "BA"]) == m.ngrams["AB"] + m.floor;
    assert SumContributions(m, ws) == m.ngrams["AB"] + m.floor + m.ngrams["AC"];
  }

  /** On the bigram model, "ABAC" scores log10(3/4) + floor + log10(1/4), BA being unseen. */
  lemma BigramScore(log10: real -> real)
    ensures var r := FromRecords([Record("AB", 3), Record("AC", 1)], log10);
      r.Ok? && Score(r.value, "ABAC") == log10(0.75) + log10(0.0025) + log10(0.25)
  {
    BigramModel(log10);
    var m := FromRecords([Record("AB", 3), Record("AC", 1)], log10).value;
    ScoreOfABAC(m);
  }

  /** The whole bigram file through the constructor yields the model above. */
  lemma BuildBigramFile(log10: real -> real)
    ensures Build(["AB 3\n", "AC 1\n"], ' ', log10) == FromRecords([Record("AB", 3), Record("AC", 1)], log10)
    ensures Build(["AB 3\n", "AC 1\n"], ' ', log10).Ok?
  {
    ReadBigramFile();
    BigramModel(log10);
  }

  /**
   A repeated key keeps its last count, and N sums the surviving counts
   only: "A 1" then "A 2" gives N = 2, not 3, and the key has probability 1.
   */
  lemma RepeatedKey(log10: real -> real)
    ensures var r := FromRecords([Record("A", 1), Record("A", 2)], log10);
      && r.Ok?
      && r.value.N == 2
      && r.value.ngrams == map["A" := log10(1.0)]
  {
    var recs := [Record("A", 1), Record("A", 2)];
    assert recs[..1] == [Record("A", 1)];
    assert [Record("A", 1)][..0] == [];
    var counts := map["A" := 2];
    assert Tally(recs) == counts;
    SumValuesRemove(counts, "A");
    assert counts - {"A"} == map[];
    FromRecordsConverts(recs, log10);
    RatioSelf(2);
    var r := Convert(counts, 2, 1, log10);
    assert r.Ok?;
    assert r.value.ngrams == map["A" := log10(1.0)];
  }

  /** The order comes from the last line: keys of lengths 1 then 3 give L = 3. */
  lemma OrderFromLastKey(log10: real -> real)
    ensures var r := FromRecords([Record("A", 1), Record("ABC", 1)], log10);
      r.Ok? && r.value.L == 3
  {
    FromTwoRecords(Record("A", 1), Record("ABC", 1), log10);
    ConvertTwo("A", 1, "ABC", 1, 3, log10);
  }

  /** A line without the separator fails to unpack; an empty file leaves the key unbound. */
  lemma RejectedFiles(log10: real -> real)
    ensures Build(["XYZ\n"], ' ', log10) == Err(UnpackError(0))
    ensures Build([], ' ', log10) == Err(UnboundKey)
    ensures Build([""], ' ', log10) == Err(UnboundKey)
  {
    ParseLineUnpack("XYZ\n", ' ', 0);
    assert multiset("XYZ\n")[' '] == 0;
  }

  /** A count field that holds no digit is an integer error on its line. */
  lemma NonNumericCount()
    ensures ParseLine("B x\n", ' ', 1) == Err(IntError(1))
  {
    var line := "B x\n";
    assert multiset(line)[' '] == 1;
    ParseLineFields(line, ' ', 1, 1);
    assert line[1] == ' ' && line[2..] == "x\n";
    ParseIntShape("x\n");
  }

  /** `int()` does not skip the separator \x1c: `int("3\x1c\n")` raises ValueError. */
  lemma SeparatorInCount()
    ensures ParseInt("3\U{1C}\n") == None
  {
    var count := "3\U{1C}\n";
    assert TrimStart(count) == count;
    assert count[..2] == "3\U{1C}" && TrimEnd(count[..2]) == count[..2];
    assert Strip(count) == count[..2];
    assert !IsDigit(count[1]);
    ParseIntShape(count);
  }

  /** A count followed by the separator \x1c makes its line an integer error. */
  lemma SeparatorAfterCount()
    ensures ParseLine("AB 3\U{1C}\n", ' ', 0) == Err(IntError(0))
  {
    var line := "AB 3\U{1C}\n";
    assert multiset(line)[' '] == 1;
    ParseLineFields(line, ' ', 0, 2);
    assert line[2] == ' ' && line[3..] == "3\U{1C}\n";
    SeparatorInCount();
  }

  /** The reading loop stops at the first line that does not parse, with that line's error. */
  lemma RejectedCountText(log10: real -> real)
    ensures Build(["A 1\n", "B x\n"], ' ', log10) == Err(IntError(1))
  {
    var lines := ["A 1\n", "B x\n"];
    NonNumericCount();
    assert ShowInt(1) == "1";
    PrintedLine("A", 1, lines[0], 0);
    assert ParseFrom(lines, ' ', 1) == Err(IntError(1));
  }

  /** Counts that cancel out divide by zero. */
  lemma CancellingCounts(log10: real -> real)
    ensures FromRecords([Record("A", 1), Record("B", -1)], log10) == Err(ZeroDivision)
  {
    FromTwoRecords(Record("A", 1), Record("B", -1), log10);
  }

  /** A zero count leaves log10's domain, although the total is positive. */
  lemma ZeroCount(log10: real -> real)
    ensures FromRecords([Record("A", 0), Record("B", 1)], log10) == Err(MathDomain)
  {
    FromTwoRecords(Record("A", 0), Record("B", 1), log10);
    assert map["A" := 0, "B" := 1]["A"] == 0;
  }

  /** A negative total leaves log10's domain at the first key whose count is at least 0. */
  lemma NegativeTotal(log10: real -> real)
    ensures FromRecords([Record("A", 1), Record("B", -3)], log10) == Err(MathDomain)
  {
    FromTwoRecords(Record("A", 1), Record("B", -3), log10);
    assert map["A" := 1, "B" := -3]["A"] == 1;
  }
}
