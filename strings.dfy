/** String helpers shared by the path, URL and query builders: Rust's `trim_end_matches`,
    `starts_with`, `ends_with`, `join`, splitting on a separator, and `format!("{}", n)` for
    unsigned integers. Strings are sequences of Unicode scalar values. */
module Strings {

  predicate StartsWith(s: string, prefix: string) {
    |prefix| <= |s| && s[..|prefix|] == prefix
  }

  predicate EndsWith(s: string, c: char) {
    |s| > 0 && s[|s| - 1] == c
  }

  predicate Contains(s: string, c: char) {
    exists i :: 0 <= i < |s| && s[i] == c
  }

  /** `s.trim_end_matches(c)`: the longest prefix of `s` that does not end with `c`,
      such that everything cut off is `c`. */
  function TrimEndMatches(s: string, c: char): (r: string)
    ensures |r| <= |s| && r == s[..|r|]
    ensures !EndsWith(r, c)
    ensures forall i :: |r| <= i < |s| ==> s[i] == c
    decreases |s|
  {
    if EndsWith(s, c) then TrimEndMatches(s[..|s| - 1], c) else s
  }

  /** Trimming again changes nothing. */
  lemma TrimEndMatchesIdempotent(s: string, c: char)
    ensures TrimEndMatches(TrimEndMatches(s, c), c) == TrimEndMatches(s, c)
  {
  }

  /** Appending one more `c` does not change the trimmed result. */
  lemma {:induction false} TrimEndMatchesAppend(s: string, c: char)
    ensures TrimEndMatches(s + [c], c) == TrimEndMatches(s, c)
  {
    assert (s + [c])[..|s + [c]| - 1] == s;
  }

  /** Appending any run of `c` does not change the trimmed result. */
  lemma {:induction false} TrimEndMatchesAppendRun(s: string, t: string, c: char)
    requires forall i :: 0 <= i < |t| ==> t[i] == c
    ensures TrimEndMatches(s + t, c) == TrimEndMatches(s, c)
    decreases |t|
  {
    if |t| > 0 {
      var u := t[..|t| - 1];
      TrimEndMatchesAppendRun(s, u, c);
      assert s + t == (s + u) + [c];
      TrimEndMatchesAppend(s + u, c);
    } else {
      assert s + t == s;
    }
  }

  /** `parts.join(sep)` for a one-character separator. */
  function Join(parts: seq<string>, sep: char): (r: string)
    ensures |parts| == 1 ==> r == parts[0]
    ensures |parts| > 1 ==> r == parts[0] + [sep] + Join(parts[1..], sep)
  {
    if |parts| == 0 then ""
    else if |parts| == 1 then parts[0]
    else parts[0] + [sep] + Join(parts[1..], sep)
  }

  /** Splitting on a separator character, as a query parser splits on `&`: always at least
      one piece, and the pieces contain no separator. */
  function Split(s: string, sep: char): (r: seq<string>)
    ensures |r| >= 1
    ensures forall k :: 0 <= k < |r| ==> !Contains(r[k], sep)
  {
    if |s| == 0 then [""]
    else if s[0] == sep then [""] + Split(s[1..], sep)
    else
      var rest := Split(s[1..], sep);
      assert !Contains(rest[0], sep);
      [[s[0]] + rest[0]] + rest[1..]
  }

  /** A piece without the separator, followed by the separator, is split off as one piece. */
  lemma {:induction false} SplitPiece(p: string, sep: char, t: string)
    requires !Contains(p, sep)
    ensures Split(p + [sep] + t, sep) == [p] + Split(t, sep)
    ensures Split(p, sep) == [p]
  {
    if |p| > 0 {
      assert !Contains(p[1..], sep) by {
        forall i | 0 <= i < |p[1..]| ensures p[1..][i] != sep { assert p[1..][i] == p[i + 1]; }
      }
      SplitPiece(p[1..], sep, t);
      assert (p + [sep] + t)[1..] == p[1..] + [sep] + t;
      assert [p[0]] + p[1..] == p;
    } else {
      assert p + [sep] + t == [sep] + t;
      assert ([sep] + t)[1..] == t;
    }
  }

  /** Splitting a join gives the parts back, as long as no part contains the separator. */
  lemma {:induction false} SplitJoin(parts: seq<string>, sep: char)
    requires |parts| >= 1
    requires forall k :: 0 <= k < |parts| ==> !Contains(parts[k], sep)
    ensures Split(Join(parts, sep), sep) == parts
  {
    if |parts| == 1 {
      SplitPiece(parts[0], sep, "");
    } else {
      SplitJoin(parts[1..], sep);
      SplitPiece(parts[0], sep, Join(parts[1..], sep));
      assert [parts[0]] + parts[1..] == parts;
    }
  }

  /** The first piece of a join is the first part, whatever the later parts contain. */
  lemma FirstPieceOfJoin(parts: seq<string>, sep: char)
    requires |parts| >= 1 && !Contains(parts[0], sep)
    ensures Split(Join(parts, sep), sep)[0] == parts[0]
  {
    if |parts| == 1 {
      SplitPiece(parts[0], sep, "");
    } else {
      SplitPiece(parts[0], sep, Join(parts[1..], sep));
    }
  }

  predicate IsDigit(c: char) {
    '0' <= c <= '9'
  }

  function DigitChar(d: nat): (c: char)
    requires d < 10
    ensures IsDigit(c)
  {
    ('0' as int + d) as char
  }

  /** `format!("{}", n)` for an unsigned integer: decimal digits, no leading zero. */
  function Decimal(n: nat): (r: string)
    ensures |r| >= 1
    ensures forall i :: 0 <= i < |r| ==> IsDigit(r[i])
    ensures |r| > 1 ==> r[0] != '0'
    ensures r[0] == '0' ==> n == 0
  {
    if n < 10 then [DigitChar(n)] else Decimal(n / 10) + [DigitChar(n % 10)]
  }

  /** Reading decimal digits back as a number, the inverse of Decimal. */
  function ParseDecimal(s: string): nat
    requires forall i :: 0 <= i < |s| ==> IsDigit(s[i])
  {
    if |s| == 0 then 0
    else
      assert IsDigit(s[|s| - 1]);
      ParseDecimal(s[..|s| - 1]) * 10 + (s[|s| - 1] as int - '0' as int)
  }

  lemma {:induction false} DecimalRoundTrip(n: nat)
    ensures ParseDecimal(Decimal(n)) == n
  {
    if n >= 10 {
      DecimalRoundTrip(n / 10);
      var d := Decimal(n);
      assert d[..|d| - 1] == Decimal(n / 10);
    }
  }
}
