/**
 Scoring a text against a constructed model (`ngram_score.__call__`):
 slide a window of length L over the text, add each window's stored
 log-probability, or the floor when the window is not a key, and return
 the sum. Scoring reads the model and changes nothing in it.
 */
module NgramScore {
  import opened NgramLoad

  /** How many offsets `range(len(text) - L + 1)` visits. */
  function NumWindows(L: nat, text: string): nat
  {
    if |text| < L then 0 else |text| - L + 1
  }

  /** The length-L substrings of `text` at offsets 0, 1, ..., in order. */
  function Windows(L: nat, text: string): (ws: seq<string>)
    ensures |ws| == NumWindows(L, text)
    decreases |text|
  {
    if |text| < L then []
    else if |text| == L then [text]
    else [text[..L]] + Windows(L, text[1..])
  }

  /** The window at offset `i` is `text[i:i+L]`. */
  lemma {:induction false} WindowAt(L: nat, text: string, i: int)
    requires 0 <= i < NumWindows(L, text)
    ensures Windows(L, text)[i] == text[i..i + L]
    decreases |text|
  {
    if i > 0 {
      assert |text| > L;
      var rest := text[1..];
      assert Windows(L, text) == [text[..L]] + Windows(L, rest);
      WindowAt(L, rest, i - 1);
      assert rest[i - 1..i - 1 + L] == text[i..i + L];
    } else if |text| == L {
      assert text[..L] == text;
    }
  }

  /** There is one window per offset, and the one at offset `i` is `text[i:i+L]`. */
  lemma WindowsAt(L: nat, text: string)
    ensures forall i :: 0 <= i < |Windows(L, text)| ==> Windows(L, text)[i] == text[i..i + L]
  {
    forall i | 0 <= i < |Windows(L, text)| ensures Windows(L, text)[i] == text[i..i + L] {
      WindowAt(L, text, i);
    }
  }

  /**
   What one window adds: its stored value if it is a key, the floor
   otherwise. For a calibrated model it lies between the floor and 0, and
   it is the floor exactly for an unseen window.
   */
  function Contribution(m: Model, w: string): (r: real)
    ensures r == m.floor || r in m.ngrams.Values
    ensures Calibrated(m) ==> m.floor <= r <= 0.0 && (r == m.floor <==> w !in m.ngrams)
  {
    if w in m.ngrams then m.ngrams[w] else m.floor
  }

  /** The contributions of the windows, added left to right. */
  function SumContributions(m: Model, ws: seq<string>): real
  {
    if |ws| == 0 then 0.0
    else SumContributions(m, ws[..|ws| - 1]) + Contribution(m, ws[|ws| - 1])
  }

  /** The score of `text`: the sum over its windows. A text shorter than L has none and scores 0. */
  function Score(m: Model, text: string): (r: real)
    ensures |text| < m.L ==> r == 0.0
  {
    SumContributions(m, Windows(m.L, text))
  }

  /** `ngram_score.__call__`: the scoring loop as ngram.py writes it. */
  method ScoreText(m: Model, text: string) returns (score: real)
    ensures score == Score(m, text)
  {
    score := 0.0;
    var n := |text| - m.L + 1;
    ghost var ws := Windows(m.L, text);
    var i := 0;
    while i < n
      invariant 0 <= i <= |ws|
      invariant score == SumContributions(m, ws[..i])
    {
      var w := text[i..i + m.L];
      WindowAt(m.L, text, i);
      assert ws[..i + 1][..i] == ws[..i];
      if w in m.ngrams {
        score := score + m.ngrams[w];
      } else {
        score := score + m.floor;
      }
      i := i + 1;
    }
    assert ws[..i] == ws;
  }

  /**
   Appending one character keeps every window and, once the text is at
   least L long, adds the one new window that ends at the new character.
   */
  lemma WindowsExtend(L: nat, text: string, c: char)
    ensures Windows(L, text + [c]) ==
      Windows(L, text) + (if |text| + 1 >= L then [(text + [c])[|text| + 1 - L..]] else [])
  {
    var t := text + [c];
    var ws := Windows(L, text);
    var ws' := Windows(L, t);
    if |t| >= L {
      forall i | 0 <= i < |ws| ensures ws'[i] == ws[i] {
        WindowAt(L, text, i);
        WindowAt(L, t, i);
        assert t[i..i + L] == text[i..i + L];
      }
      WindowAt(L, t, |ws|);
      assert ws'[|ws|] == t[|ws|..|ws| + L] == t[|t| - L..];
      assert ws' == ws + [t[|t| - L..]];
    }
  }

  /**
   Appending one character adds exactly the contribution of the one new
   window that ends at it, if the text is now at least L long.
   */
  lemma ScoreExtend(m: Model, text: string, c: char)
    ensures Score(m, text + [c]) ==
      Score(m, text) + (if |text| + 1 >= m.L then Contribution(m, (text + [c])[|text| + 1 - m.L..]) else 0.0)
  {
    WindowsExtend(m.L, text, c);
    var ws' := Windows(m.L, text + [c]);
    if |text| + 1 >= m.L {
      assert ws'[..|ws'| - 1] == Windows(m.L, text);
    }
  }

  /**
   If the floor is strictly below every stored value, every window adds at
   least the floor, and the sum equals the floor times the number of windows
   exactly when no window is a key (for a floor strictly below every value).
   */
  lemma SumAtLeastFloor(m: Model, ws: seq<string>)
    requires forall k :: k in m.ngrams ==> m.floor < m.ngrams[k]
    ensures SumContributions(m, ws) >= |ws| as real * m.floor
    ensures SumContributions(m, ws) == |ws| as real * m.floor <==>
      forall i :: 0 <= i < |ws| ==> ws[i] !in m.ngrams
  {
    SumFloorBound(m, ws);
    SumFloorExact(m, ws);
  }

  /** Each window adds at least the floor. */
  lemma {:induction false} SumFloorBound(m: Model, ws: seq<string>)
    requires forall k :: k in m.ngrams ==> m.floor < m.ngrams[k]
    ensures SumContributions(m, ws) >= |ws| as real * m.floor
  {
    if |ws| > 0 {
      var prefix := ws[..|ws| - 1];
      assert SumContributions(m, ws) == SumContributions(m, prefix) + Contribution(m, ws[|ws| - 1]);
      SumFloorBound(m, prefix);
      assert |ws| as real * m.floor == |prefix| as real * m.floor + m.floor;
    }
  }

  /** The sum reaches floor times the number of windows exactly when no window is a key. */
  lemma SumFloorExact(m: Model, ws: seq<string>)
    requires forall k :: k in m.ngrams ==> m.floor < m.ngrams[k]
    ensures SumContributions(m, ws) == |ws| as real * m.floor <==>
      forall i :: 0 <= i < |ws| ==> ws[i] !in m.ngrams
  {
    if forall i :: 0 <= i < |ws| ==> ws[i] !in m.ngrams {
      SumAllUnseen(m, ws);
    } else {
      var j :| 0 <= j < |ws| && ws[j] in m.ngrams;
      SumAboveFloor(m, ws, j);
    }
  }

  /** When no window is a key, each adds exactly the floor. */
  lemma {:induction false} SumAllUnseen(m: Model, ws: seq<string>)
    requires forall i :: 0 <= i < |ws| ==> ws[i] !in m.ngrams
    ensures SumContributions(m, ws) == |ws| as real * m.floor
  {
    if |ws| > 0 {
      var prefix := ws[..|ws| - 1];
      assert SumContributions(m, ws) == SumContributions(m, prefix) + Contribution(m, ws[|ws| - 1]);
      assert forall i :: 0 <= i < |prefix| ==> prefix[i] == ws[i];
      SumAllUnseen(m, prefix);
      assert |ws| as real * m.floor == |prefix| as real * m.floor + m.floor;
    }
  }

  /** One window that is a key lifts the sum strictly above floor times the number of windows. */
  lemma {:induction false} SumAboveFloor(m: Model, ws: seq<string>, j: int)
    requires forall k :: k in m.ngrams ==> m.floor < m.ngrams[k]
    requires 0 <= j < |ws| && ws[j] in m.ngrams
    ensures SumContributions(m, ws) > |ws| as real * m.floor
  {
    var prefix := ws[..|ws| - 1];
    var last := ws[|ws| - 1];
    assert SumContributions(m, ws) == SumContributions(m, prefix) + Contribution(m, last);
    assert |ws| as real * m.floor == |prefix| as real * m.floor + m.floor;
    if j == |ws| - 1 {
      SumFloorBound(m, prefix);
    } else {
      assert prefix[j] == ws[j];
      SumAboveFloor(m, prefix, j);
    }
  }

  /**
   With the floor strictly below every stored value, a text scores at least
   the floor times its number of windows, with equality exactly when none
   of its windows is a key.
   */
  lemma ScoreAtLeastFloor(m: Model, text: string)
    requires forall k :: k in m.ngrams ==> m.floor < m.ngrams[k]
    ensures Score(m, text) >= NumWindows(m.L, text) as real * m.floor
    ensures Score(m, text) == NumWindows(m.L, text) as real * m.floor <==>
      forall i, j :: 0 <= i <= j <= |text| && j == i + m.L ==> text[i..j] !in m.ngrams
  {
    SumAtLeastFloor(m, Windows(m.L, text));
    WindowsMiss(m.L, text, m.ngrams.Keys);
  }

  /** No window is in `keys` exactly when no slice of length L of the text is. */
  lemma WindowsMiss(L: nat, text: string, keys: set<string>)
    ensures (forall k :: 0 <= k < |Windows(L, text)| ==> Windows(L, text)[k] !in keys) <==>
      forall i, j :: 0 <= i <= j <= |text| && j == i + L ==> text[i..j] !in keys
  {
    var ws := Windows(L, text);
    if forall k :: 0 <= k < |ws| ==> ws[k] !in keys {
      forall i, j | 0 <= i <= j <= |text| && j == i + L ensures text[i..j] !in keys {
        WindowAt(L, text, i);
      }
    } else {
      var k :| 0 <= k < |ws| && ws[k] in keys;
      WindowAt(L, text, k);
    }
  }

  /** When the floor and every stored value are at most 0, so is every score. */
  lemma {:induction false} SumNonPositive(m: Model, ws: seq<string>)
    requires m.floor <= 0.0
    requires forall k :: k in m.ngrams ==> m.ngrams[k] <= 0.0
    ensures SumContributions(m, ws) <= 0.0
  {
    if |ws| > 0 {
      SumNonPositive(m, ws[..|ws| - 1]);
    }
  }

  lemma ScoreNonPositive(m: Model, text: string)
    requires m.floor <= 0.0
    requires forall k :: k in m.ngrams ==> m.ngrams[k] <= 0.0
    ensures Score(m, text) <= 0.0
  {
    SumNonPositive(m, Windows(m.L, text));
  }

  /**
   For a calibrated model (floor below every stored value, stored values at
   most 0), every score lies between the floor times the number of windows
   and 0, and reaches the lower end exactly when no window is a key.
   */
  lemma CalibratedScoreBounds(m: Model, text: string)
    requires Calibrated(m)
    ensures NumWindows(m.L, text) as real * m.floor <= Score(m, text) <= 0.0
    ensures Score(m, text) == NumWindows(m.L, text) as real * m.floor <==>
      forall i, j :: 0 <= i <= j <= |text| && j == i + m.L ==> text[i..j] !in m.ngrams
  {
    ScoreAtLeastFloor(m, text);
    ScoreNonPositive(m, text);
  }
}
