/**
 * String helpers that stand in for the parts of Go's `strings` and `strconv`
 * packages the resolver relies on: finding a separator, splitting on it,
 * decimal digits, `strconv.Atoi` and `strings.TrimSpace`.
 */
module Text {
  import opened Wrappers

  /** Index of the first occurrence of `c` in `s`, or `|s|` when `c` does not occur. */
  function IndexOf(s: string, c: char): (i: nat)
    ensures i <= |s|
    ensures i < |s| ==> s[i] == c
    ensures forall k :: 0 <= k < i ==> s[k] != c
  {
    if s == [] then 0
    else if s[0] == c then 0
    else 1 + IndexOf(s[1..], c)
  }

  /** `parts` joined with `sep` between consecutive elements (Go's `strings.Join`). */
  function Join(parts: seq<string>, sep: char): string
  {
    if |parts| == 0 then ""
    else if |parts| == 1 then parts[0]
    else parts[0] + [sep] + Join(parts[1..], sep)
  }

  /** Go's `strings.Split(s, sep)` for a one-character separator: never empty, and joining undoes it. */
  function Split(s: string, sep: char): (parts: seq<string>)
    ensures |parts| >= 1
    ensures forall i :: 0 <= i < |parts| ==> sep !in parts[i]
    ensures Join(parts, sep) == s
    decreases |s|
  {
    var i := IndexOf(s, sep);
    if i == |s| then
      [s]
    else
      var rest := Split(s[i + 1..], sep);
      assert s == s[..i] + [sep] + s[i + 1..];
      [s[..i]] + rest
  }

  lemma SplitWithoutSeparator(s: string, sep: char)
    requires sep !in s
    ensures Split(s, sep) == [s]
  {
  }

  lemma SplitFirst(x: string, sep: char, y: string)
    requires sep !in x
    ensures Split(x + [sep] + y, sep) == [x] + Split(y, sep)
  {
    var s := x + [sep] + y;
    var i := IndexOf(s, sep);
    assert s[|x|] == sep;
    assert s[..i] == x;
    assert s[i + 1..] == y;
  }

  /** The first element and the rest of a sequence that starts with `x`, then `a`, then `b`. */
  lemma ConsConcat<T>(x: T, a: seq<T>, b: seq<T>)
    ensures ([x] + a + b)[0] == x && ([x] + a + b)[1..] == a + b
    ensures |a| > 0 ==> (a + b)[0] == a[0]
  {
  }

  /** Three sequences joined by a separator, grouped from the right and from the left. */
  lemma JoinThree<T>(a: seq<T>, b: seq<T>, c: seq<T>, sep: T)
    ensures a + [sep] + b + [sep] + c == a + [sep] + (b + [sep] + c)
    ensures forall x :: x in a + [sep] + b + [sep] + c <==> x == sep || x in a || x in b || x in c
  {
  }

  predicate IsDigit(c: char) { '0' <= c <= '9' }

  predicate AllDigits(s: string) { forall i :: 0 <= i < |s| ==> IsDigit(s[i]) }

  /** A non-empty run of decimal digits, as the version grammar requires of each number. */
  predicate IsDigits(s: string) { |s| > 0 && AllDigits(s) }

  /** The decimal value of a digit string (leading zeros allowed, as in Go's `ParseInt`). */
  function DigitsValue(s: string): nat
    requires AllDigits(s)
  {
    if s == [] then 0
    else 10 * DigitsValue(s[..|s| - 1]) + (s[|s| - 1] as int - '0' as int)
  }

  function DigitChar(d: nat): (c: char)
    requires d < 10
    ensures IsDigit(c) && c as int - '0' as int == d
  {
    ('0' as int + d) as char
  }

  /** Decimal rendering of `n` without leading zeros (Go's `%d`); reading it back gives `n`. */
  function NatToString(n: nat): (s: string)
    ensures IsDigits(s)
    ensures DigitsValue(s) == n
  {
    if n < 10 then
      [DigitChar(n)]
    else
      var prefix := NatToString(n / 10);
      var s := prefix + [DigitChar(n % 10)];
      assert s[..|s| - 1] == prefix;
      s
  }

  const MaxInt64: int := 0x7fff_ffff_ffff_ffff

  /**
   * Go's `strconv.Atoi` on a 64-bit platform: an optional sign followed by at
   * least one decimal digit, within the range of `int64`; anything else fails.
   */
  function Atoi(s: string): Option<int>
  {
    if |s| > 0 && (s[0] == '-' || s[0] == '+') then
      if !IsDigits(s[1..]) then None
      else if s[0] == '-' then
        var n: int := DigitsValue(s[1..]);
        if n <= MaxInt64 + 1 then Some(-n) else None
      else
        if DigitsValue(s[1..]) <= MaxInt64 then Some(DigitsValue(s[1..])) else None
    else if IsDigits(s) && DigitsValue(s) <= MaxInt64 then Some(DigitsValue(s))
    else None
  }

  /** White space as Go's `unicode.IsSpace` defines it. */
  predicate IsSpace(c: char)
  {
    || c == '\t' || c == '\n' || c == '\U{0B}' || c == '\U{0C}' || c == '\r' || c == ' '
    || c == '\U{85}' || c == '\U{A0}' || c == '\U{1680}'
    || ('\U{2000}' <= c <= '\U{200A}')
    || c == '\U{2028}' || c == '\U{2029}' || c == '\U{202F}' || c == '\U{205F}' || c == '\U{3000}'
  }

  /** Go's `strings.TrimLeftFunc`: drops the leading elements that satisfy `p`. */
  function TrimLeftFunc<T>(s: seq<T>, p: T -> bool): (r: seq<T>)
    ensures |r| <= |s| && r == s[|s| - |r|..]
    ensures forall k :: 0 <= k < |s| - |r| ==> p(s[k])
    ensures r == [] || !p(r[0])
  {
    if s != [] && p(s[0]) then TrimLeftFunc(s[1..], p) else s
  }

  /** Go's `strings.TrimRightFunc`: drops the trailing elements that satisfy `p`. */
  function TrimRightFunc<T>(s: seq<T>, p: T -> bool): (r: seq<T>)
    ensures |r| <= |s| && r == s[..|r|]
    ensures forall k :: |r| <= k < |s| ==> p(s[k])
    ensures r == [] || !p(r[|r| - 1])
  {
    if s != [] && p(s[|s| - 1]) then TrimRightFunc(s[..|s| - 1], p) else s
  }

  /** `r` is the infix of `s` starting at `i`, and every element of `s` around it satisfies `p`. */
  ghost predicate IsTrimmedBy<T>(s: seq<T>, r: seq<T>, i: int, p: T -> bool)
  {
    && 0 <= i <= |s| - |r|
    && r == s[i..i + |r|]
    && (forall k :: 0 <= k < i ==> p(s[k]))
    && (forall k :: i + |r| <= k < |s| ==> p(s[k]))
  }

  /**
   * Go's `strings.TrimSpace`: `r` is what is left of `s` after removing all
   * leading and trailing white space.
   */
  function TrimSpace(s: string): (r: string)
    ensures r == [] || (!IsSpace(r[0]) && !IsSpace(r[|r| - 1]))
    ensures exists i :: IsTrimmedBy(s, r, i, IsSpace)
  {
    var left := TrimLeftFunc(s, IsSpace);
    TrimBothEnds(s, left, TrimRightFunc(left, IsSpace), IsSpace);
    TrimRightFunc(left, IsSpace)
  }

  /** Trimming a suffix of `s` on the right leaves an infix of `s`. */
  lemma TrimBothEnds<T>(s: seq<T>, left: seq<T>, r: seq<T>, p: T -> bool)
    requires |left| <= |s| && left == s[|s| - |left|..]
    requires forall k :: 0 <= k < |s| - |left| ==> p(s[k])
    requires |r| <= |left| && r == left[..|r|]
    requires forall k :: |r| <= k < |left| ==> p(left[k])
    ensures IsTrimmedBy(s, r, |s| - |left|, p)
  {
    var i := |s| - |left|;
    forall k | i + |r| <= k < |s|
      ensures p(s[k])
    {
      assert s[k] == left[k - i];
    }
  }

  /** A string without white space at either end is its own trimming. */
  lemma TrimSpaceOfTrimmed(s: string)
    requires s == [] || (!IsSpace(s[0]) && !IsSpace(s[|s| - 1]))
    ensures TrimSpace(s) == s
  {
    assert TrimLeftFunc(s, IsSpace) == s;
  }

  /** Trimming is idempotent. */
  lemma TrimSpaceIdempotent(s: string)
    ensures TrimSpace(TrimSpace(s)) == TrimSpace(s)
  {
    TrimSpaceOfTrimmed(TrimSpace(s));
  }
}
