/**
 The raw-count table the loader builds before any conversion: a Python
 dictionary filled one record at a time, where a repeated key overwrites
 the earlier count but keeps its place in the dictionary's order.
 */
module Counts {

  /** One `key count` line after it has been split and its count read. */
  datatype Record = Record(key: string, count: int)

  /** The distinct keys of the records. */
  function KeysOf(recs: seq<Record>): set<string>
  {
    set r | r in recs :: r.key
  }

  /** `i` is the last record that writes its key. */
  predicate IsLastWrite(recs: seq<Record>, i: int)
  {
    0 <= i < |recs| && forall j :: i < j < |recs| ==> recs[j].key != recs[i].key
  }

  /**
   The dictionary after storing every record in order (later records
   overwrite earlier ones). Its key set is the set of distinct keys read;
   `TallyAtLastWrite` gives its values.
   */
  function Tally(recs: seq<Record>): (m: map<string, int>)
    ensures m.Keys == KeysOf(recs)
  {
    if |recs| == 0 then map[]
    else
      var prefix := recs[..|recs| - 1];
      var last := recs[|recs| - 1];
      assert recs == prefix + [last];
      assert KeysOf(recs) == KeysOf(prefix) + {last.key};
      Tally(prefix)[last.key := last.count]
  }

  /** Each key holds the count of the last record that wrote it. */
  lemma {:induction false} TallyAtLastWrite(recs: seq<Record>, i: int)
    requires IsLastWrite(recs, i)
    ensures recs[i].key in Tally(recs) && Tally(recs)[recs[i].key] == recs[i].count
  {
    var prefix := recs[..|recs| - 1];
    var last := recs[|recs| - 1];
    if i < |recs| - 1 {
      assert recs[i] == prefix[i] && recs[i].key != last.key;
      assert IsLastWrite(prefix, i) by {
        forall j | i < j < |prefix| ensures prefix[j].key != prefix[i].key {
          assert prefix[j] == recs[j];
        }
      }
      TallyAtLastWrite(prefix, i);
    }
  }

  /** Every key read has a last record writing it, and the tally holds that record's count. */
  lemma {:induction false} TallyLastWrite(recs: seq<Record>, k: string)
    requires k in KeysOf(recs)
    ensures exists i :: IsLastWrite(recs, i) && recs[i].key == k && Tally(recs)[k] == recs[i].count
    decreases |recs|
  {
    var last := |recs| - 1;
    if recs[last].key == k {
      assert IsLastWrite(recs, last);
      TallyAtLastWrite(recs, last);
    } else {
      var prefix := recs[..last];
      assert recs == prefix + [recs[last]];
      assert k in KeysOf(prefix);
      TallyLastWrite(prefix, k);
      var i :| IsLastWrite(prefix, i) && prefix[i].key == k;
      assert IsLastWrite(recs, i);
      TallyAtLastWrite(recs, i);
    }
  }

  predicate NoDuplicates(ks: seq<string>)
  {
    forall i, j :: 0 <= i < j < |ks| ==> ks[i] != ks[j]
  }

  /**
   The dictionary's iteration order: a key is appended when it is first
   inserted, and a later write to it leaves the order unchanged. The
   contract states that each distinct key occurs once; the order itself is
   not stated.
   */
  function KeyOrder(recs: seq<Record>): (ks: seq<string>)
    ensures NoDuplicates(ks)
    ensures (set k | k in ks) == KeysOf(recs)
  {
    if |recs| == 0 then []
    else
      var prefix := recs[..|recs| - 1];
      var last := recs[|recs| - 1];
      var p := KeyOrder(prefix);
      assert recs == prefix + [last];
      assert KeysOf(recs) == KeysOf(prefix) + {last.key};
      if last.key in p then p
      else
        var ks := p + [last.key];
        assert (set k | k in ks) == (set k | k in p) + {last.key};
        ks
  }

  /** Sum of the values at the listed keys, left to right. */
  function SumOver(ks: seq<string>, m: map<string, int>): int
    requires forall i :: 0 <= i < |ks| ==> ks[i] in m
  {
    if |ks| == 0 then 0 else m[ks[0]] + SumOver(ks[1..], m)
  }

  /** Sum of all values of a map, independent of any order. */
  ghost function SumValues(m: map<string, int>): int
    decreases |m|
  {
    if |m| == 0 then 0
    else
      var k := Pick(m);
      assert (m - {k}).Keys == m.Keys - {k};
      m[k] + SumValues(m - {k})
  }

  /** Some key of a non-empty map. */
  ghost function Pick(m: map<string, int>): (k: string)
    requires |m| > 0
    ensures k in m
  {
    var k :| k in m; k
  }

  /** Any key can be taken out first. */
  lemma {:induction false} SumValuesRemove(m: map<string, int>, k: string)
    requires k in m
    ensures SumValues(m) == m[k] + SumValues(m - {k})
    decreases |m|
  {
    var j := Pick(m);
    if j != k {
      var mj := m - {j};
      var mk := m - {k};
      assert |mj| < |m| && |mk| < |m| by {
        assert mj.Keys == m.Keys - {j};
        assert mk.Keys == m.Keys - {k};
      }
      assert k in mj && mj[k] == m[k];
      assert j in mk && mk[j] == m[j];
      SumValuesRemove(mj, k);
      SumValuesRemove(mk, j);
      assert mj - {k} == mk - {j};
    }
  }

  lemma {:induction false} SumOverFrame(ks: seq<string>, m: map<string, int>, m': map<string, int>)
    requires forall i :: 0 <= i < |ks| ==> ks[i] in m && ks[i] in m' && m[ks[i]] == m'[ks[i]]
    ensures SumOver(ks, m) == SumOver(ks, m')
    decreases |ks|
  {
    if |ks| > 0 {
      SumOverFrame(ks[1..], m, m');
    }
  }

  /** Removing the first key of a duplicate-free listing lists the rest of the map. */
  lemma DropFirstKey(ks: seq<string>, m: map<string, int>)
    requires |ks| > 0 && NoDuplicates(ks)
    requires forall x :: x in ks <==> x in m
    ensures NoDuplicates(ks[1..])
    ensures forall x :: x in ks[1..] <==> x in m - {ks[0]}
  {
    forall x | x in m - {ks[0]} ensures x in ks[1..] {
      var i :| 0 <= i < |ks| && ks[i] == x;
      assert ks[1..][i - 1] == x;
    }
  }

  /** Summing over any duplicate-free listing of the keys gives the sum of the values. */
  lemma {:induction false} SumOverIsSumValues(ks: seq<string>, m: map<string, int>)
    requires NoDuplicates(ks)
    requires forall x :: x in ks <==> x in m
    ensures SumOver(ks, m) == SumValues(m)
    decreases |ks|
  {
    if |ks| == 0 {
      assert m.Keys == {};
    } else {
      var rest := m - {ks[0]};
      DropFirstKey(ks, m);
      SumOverFrame(ks[1..], m, rest);
      SumOverIsSumValues(ks[1..], rest);
      SumValuesRemove(m, ks[0]);
    }
  }

  /**
   Python's `sum(d.values())` on the tallied dictionary: it adds each
   distinct key's surviving count once, so it is the sum of the values of
   the de-duplicated table and not of every record read.
   */
  function Total(recs: seq<Record>): (n: int)
    ensures n == SumValues(Tally(recs))
  {
    var ks := KeyOrder(recs);
    assert forall x :: x in ks <==> x in (set k | k in ks);
    SumOverIsSumValues(ks, Tally(recs));
    SumOver(ks, Tally(recs))
  }

  /**
   Reading one more record changes the total by the new count minus the
   count it overwrites, if any.
   */
  lemma {:induction false} TotalAppend(recs: seq<Record>, r: Record)
    ensures Total(recs + [r]) ==
            Total(recs) + r.count - (if r.key in Tally(recs) then Tally(recs)[r.key] else 0)
  {
    var recs' := recs + [r];
    assert recs'[..|recs'| - 1] == recs;
    assert Tally(recs') == Tally(recs)[r.key := r.count];
    SumValuesUpdate(Tally(recs), r.key, r.count);
  }

  /** Storing `v` at `k` adds `v` to the sum and drops the value it replaces. */
  lemma SumValuesUpdate(m: map<string, int>, k: string, v: int)
    ensures SumValues(m[k := v]) == SumValues(m) + v - (if k in m then m[k] else 0)
  {
    var m' := m[k := v];
    SumValuesRemove(m', k);
    assert m' - {k} == m - {k};
    if k in m {
      SumValuesRemove(m, k);
    } else {
      assert m - {k} == m;
    }
  }

  /** With every count positive, each value is at most the sum of all values. */
  lemma {:induction false} SumValuesBounds(m: map<string, int>, k: string)
    requires forall x :: x in m ==> m[x] > 0
    requires k in m
    ensures 0 < m[k] <= SumValues(m)
  {
    SumValuesRemove(m, k);
    SumValuesPositive(m - {k});
  }

  lemma {:induction false} SumValuesPositive(m: map<string, int>)
    requires forall x :: x in m ==> m[x] > 0
    ensures SumValues(m) >= 0
    ensures |m| > 0 ==> SumValues(m) > 0
    decreases |m|
  {
    if |m| > 0 {
      var k :| k in m;
      SumValuesRemove(m, k);
      SumValuesPositive(m - {k});
    }
  }
}
