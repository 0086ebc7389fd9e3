/**
 The string handling the loader relies on: splitting a line on a separator
 character (Python's `str.split(sep)`) and reading a decimal integer the way
 Python's `int()` reads one.
 */
module Text {
  import opened Wrappers

  /** Joins the fields back together with the separator between each pair. */
  function Join(fs: seq<string>, c: char): string
  {
    if |fs| == 0 then ""
    else if |fs| == 1 then fs[0]
    else fs[0] + [c] + Join(fs[1..], c)
  }

  /**
   Splits `s` at every occurrence of `c`, as Python's `s.split(c)` does:
   adjacent separators give empty fields.
   */
  function Split(s: string, c: char): (fs: seq<string>)
    ensures |fs| >= 1
    decreases |s|
  {
    if |s| == 0 then [""]
    else
      var rest := Split(s[1..], c);
      if s[0] == c then [""] + rest
      else [[s[0]] + rest[0]] + rest[1..]
  }

  /** There is one field more than there are separators. */
  lemma {:induction false} SplitCount(s: string, c: char)
    ensures |Split(s, c)| == multiset(s)[c] + 1
    decreases |s|
  {
    if |s| > 0 {
      SplitCount(s[1..], c);
      assert s == [s[0]] + s[1..];
      assert multiset(s) == multiset{s[0]} + multiset(s[1..]);
    }
  }

  /** No field holds the separator. */
  lemma {:induction false} SplitFieldsFree(s: string, c: char)
    ensures forall i :: 0 <= i < |Split(s, c)| ==> c !in Split(s, c)[i]
    decreases |s|
  {
    if |s| > 0 {
      var rest := Split(s[1..], c);
      SplitFieldsFree(s[1..], c);
      var fs := Split(s, c);
      if s[0] != c {
        assert forall i :: 1 <= i < |fs| ==> fs[i] == rest[i];
        assert fs[0] == [s[0]] + rest[0];
      }
    }
  }

  /** Joining the fields with the separator restores the line. */
  lemma {:induction false} SplitJoin(s: string, c: char)
    ensures Join(Split(s, c), c) == s
    decreases |s|
  {
    if |s| > 0 {
      var rest := Split(s[1..], c);
      SplitJoin(s[1..], c);
      assert s == [s[0]] + s[1..];
      var fs := Split(s, c);
      if s[0] == c {
        assert fs[1..] == rest;
      } else {
        assert fs[1..] == rest[1..];
        if |rest| > 1 {
          assert Join(rest, c) == rest[0] + [c] + Join(rest[1..], c);
        }
      }
    }
  }

  /**
   The characters Python's `int()` ignores around a literal in an ASCII
   string: \t \n \v \f \r and space. The separators \x1c to \x1f, which
   `str.strip` removes, are not among them.
   */
  predicate IsSpace(ch: char)
  {
    ch as int in {9, 10, 11, 12, 13, 32}
  }

  predicate IsDigit(ch: char)
  {
    '0' <= ch <= '9'
  }

  /** Drops leading whitespace. */
  function TrimStart(s: string): string
  {
    if |s| > 0 && IsSpace(s[0]) then TrimStart(s[1..]) else s
  }

  /** Drops trailing whitespace. */
  function TrimEnd(s: string): string
  {
    if |s| > 0 && IsSpace(s[|s| - 1]) then TrimEnd(s[..|s| - 1]) else s
  }

  /** TrimStart removes a whitespace prefix and leaves a text that does not start with whitespace. */
  lemma {:induction false} TrimStartSpec(s: string)
    ensures |TrimStart(s)| <= |s| && TrimStart(s) == s[|s| - |TrimStart(s)|..]
    ensures |TrimStart(s)| > 0 ==> !IsSpace(TrimStart(s)[0])
    ensures forall i :: 0 <= i < |s| - |TrimStart(s)| ==> IsSpace(s[i])
    decreases |s|
  {
    if |s| > 0 && IsSpace(s[0]) {
      TrimStartSpec(s[1..]);
    }
  }

  /** TrimEnd removes a whitespace suffix and leaves a text that does not end with whitespace. */
  lemma {:induction false} TrimEndSpec(s: string)
    ensures |TrimEnd(s)| <= |s| && TrimEnd(s) == s[..|TrimEnd(s)|]
    ensures |TrimEnd(s)| > 0 ==> !IsSpace(TrimEnd(s)[|TrimEnd(s)| - 1])
    ensures forall i :: |TrimEnd(s)| <= i < |s| ==> IsSpace(s[i])
    decreases |s|
  {
    if |s| > 0 && IsSpace(s[|s| - 1]) {
      TrimEndSpec(s[..|s| - 1]);
    }
  }

  function Strip(s: string): string
  {
    TrimEnd(TrimStart(s))
  }

  function DigitValue(ch: char): nat
    requires IsDigit(ch)
  {
    ch as int - '0' as int
  }

  /**
   The value of a run of decimal digits, most significant first, or None
   when some character is not a digit.
   */
  function ReadDigits(ds: string): Option<nat>
  {
    if |ds| == 0 then Some(0)
    else if !IsDigit(ds[|ds| - 1]) then None
    else
      match ReadDigits(ds[..|ds| - 1])
      case None => None
      case Some(v) => Some(v * 10 + DigitValue(ds[|ds| - 1]))
  }

  predicate AllDigits(ds: string)
  {
    forall i :: 0 <= i < |ds| ==> IsDigit(ds[i])
  }

  /** Digits are read exactly when every character is a digit. */
  lemma {:induction false} ReadDigitsDefined(ds: string)
    ensures ReadDigits(ds).Some? <==> AllDigits(ds)
  {
    if |ds| > 0 {
      ReadDigitsDefined(ds[..|ds| - 1]);
      assert forall i :: 0 <= i < |ds| - 1 ==> ds[..|ds| - 1][i] == ds[i];
    }
  }

  /**
   Python's `int(s)` in base 10 on an ASCII string: surrounding whitespace
   is ignored, an optional sign is followed by at least one digit, anything
   else is rejected, and None stands for the ValueError. Python's limit on
   the number of digits (4300 by default) is not modelled.
   */
  function ParseInt(s: string): Option<int>
  {
    var t := Strip(s);
    if |t| == 0 then None
    else
      var signed := t[0] == '+' || t[0] == '-';
      var ds := if signed then t[1..] else t;
      if |ds| == 0 then None
      else
        match ReadDigits(ds)
        case None => None
        case Some(v) =>
          var w: int := v;
          Some(if t[0] == '-' then -w else w)
  }

  /**
   A text is read as an integer only if, once the surrounding whitespace is
   dropped, it is an optional sign followed by digits; in particular it
   holds at least one digit.
   */
  lemma ParseIntShape(s: string)
    ensures ParseInt(s).Some? <==>
      var t := Strip(s);
      |t| > 0 &&
      var ds := if t[0] == '+' || t[0] == '-' then t[1..] else t;
      |ds| > 0 && AllDigits(ds)
    ensures ParseInt(s).Some? ==> exists i :: 0 <= i < |s| && IsDigit(s[i])
  {
    var t := Strip(s);
    if |t| > 0 {
      var signed := t[0] == '+' || t[0] == '-';
      var ds := if signed then t[1..] else t;
      ReadDigitsDefined(ds);
      if ParseInt(s).Some? {
        TrimStartSpec(s);
        TrimEndSpec(TrimStart(s));
        assert t == TrimStart(s)[..|t|];
        assert ds[0] == s[|s| - |TrimStart(s)| + (if signed then 1 else 0)];
      }
    }
  }

  function DigitChar(d: nat): (ch: char)
    requires d < 10
  {
    ('0' as int + d) as char
  }

  /** Decimal text of a natural number, without leading zeros. */
  function ShowNat(n: nat): (s: string)
    ensures |s| > 0 && AllDigits(s)
    ensures ReadDigits(s) == Some(n)
    ensures n > 0 ==> s[0] != '0'
  {
    if n < 10 then [DigitChar(n)]
    else
      var s := ShowNat(n / 10) + [DigitChar(n % 10)];
      assert s[..|s| - 1] == ShowNat(n / 10);
      s
  }

  /** Decimal text of an integer as Python's `str()` writes it, without its limit on the number of digits. */
  function ShowInt(n: int): (s: string)
    ensures |s| > 0
    ensures forall i :: 0 <= i < |s| ==> IsDigit(s[i]) || s[i] == '-'
  {
    if n < 0 then "-" + ShowNat(-n) else ShowNat(n)
  }

  /** Whitespace never shows up in a printed integer, so Strip leaves it alone. */
  lemma {:induction false} StripPrinted(s: string, tail: string)
    requires |s| > 0 && !IsSpace(s[0]) && !IsSpace(s[|s| - 1])
    requires forall i :: 0 <= i < |tail| ==> IsSpace(tail[i])
    ensures Strip(s + tail) == s
  {
    var u := s + tail;
    assert TrimStart(u) == u;
    TrimEndSpec(u);
    var t := TrimEnd(u);
    assert t == u[..|s|];
    assert u[..|s|] == s;
  }

  /** Reading back a printed integer, with or without a line end after it, gives the integer. */
  lemma ParseShowRoundTrip(n: int, tail: string)
    requires forall i :: 0 <= i < |tail| ==> IsSpace(tail[i])
    ensures ParseInt(ShowInt(n) + tail) == Some(n)
  {
    var s := ShowInt(n);
    StripPrinted(s, tail);
    assert Strip(s + tail) == s;
    if n < 0 {
      assert s[1..] == ShowNat(-n);
    }
  }
}
