/**
 * The string operations of Python's `str` that the tool relies on: `strip`,
 * `join`, `split`, `splitlines`, case folding of ASCII letters and `str()` of a
 * natural number.  Whitespace is the ASCII whitespace set (space, tab, line
 * feed, carriage return, vertical tab and form feed).
 */
module Text {

  predicate IsSpace(c: char) {
    c == ' ' || c == '\t' || c == '\n' || c == '\r' || c == '\U{B}' || c == '\U{C}'
  }

  predicate AllSpace(s: string) {
    forall i :: 0 <= i < |s| ==> IsSpace(s[i])
  }

  /** Neither the first nor the last character is whitespace. */
  predicate IsStripped(s: string) {
    s == "" || (!IsSpace(s[0]) && !IsSpace(s[|s| - 1]))
  }

  /** The first position from `i` on that is not whitespace, or `|s|`. */
  function SpanStart(s: string, i: nat): (r: nat)
    requires i <= |s|
    ensures i <= r <= |s| && (r == |s| || !IsSpace(s[r]))
    decreases |s| - i
  {
    if i < |s| && IsSpace(s[i]) then SpanStart(s, i + 1) else i
  }

  /** The end of the last non-whitespace character between `lo` and `j`, or `lo`. */
  function SpanEnd(s: string, lo: nat, j: nat): (r: nat)
    requires lo <= j <= |s|
    ensures lo <= r <= j && (r == lo || !IsSpace(s[r - 1]))
    decreases j
  {
    if lo < j && IsSpace(s[j - 1]) then SpanEnd(s, lo, j - 1) else j
  }

  lemma {:induction false} SpanStartSpaces(s: string, i: nat)
    requires i <= |s|
    ensures forall m :: i <= m < SpanStart(s, i) ==> IsSpace(s[m])
    decreases |s| - i
  {
    if i < |s| && IsSpace(s[i]) {
      SpanStartSpaces(s, i + 1);
    }
  }

  lemma {:induction false} SpanEndSpaces(s: string, lo: nat, j: nat)
    requires lo <= j <= |s|
    ensures forall m :: SpanEnd(s, lo, j) <= m < j ==> IsSpace(s[m])
    decreases j
  {
    if lo < j && IsSpace(s[j - 1]) {
      SpanEndSpaces(s, lo, j - 1);
    }
  }

  /** A run of whitespace from `i` that ends at `k` is exactly what `SpanStart` skips. */
  lemma {:induction false} SpanStartAt(s: string, i: nat, k: nat)
    requires i <= k <= |s| && (k == |s| || !IsSpace(s[k]))
    requires forall m :: i <= m < k ==> IsSpace(s[m])
    ensures SpanStart(s, i) == k
    decreases k - i
  {
    if i < k {
      SpanStartAt(s, i + 1, k);
    }
  }

  /** A run of whitespace from `k` up to `j` is exactly what `SpanEnd` skips. */
  lemma {:induction false} SpanEndAt(s: string, lo: nat, j: nat, k: nat)
    requires lo <= k <= j <= |s| && (k == lo || !IsSpace(s[k - 1]))
    requires forall m :: k <= m < j ==> IsSpace(s[m])
    ensures SpanEnd(s, lo, j) == k
    decreases j
  {
    if k < j {
      SpanEndAt(s, lo, j - 1, k);
    }
  }

  /** `s.lstrip()`: the suffix left after removing leading whitespace. */
  function LStrip(s: string): (r: string)
    ensures |r| <= |s| && (r == "" || !IsSpace(r[0]))
  {
    s[SpanStart(s, 0)..]
  }

  /** `s.strip()`: the text between the leading and the trailing whitespace. */
  function Strip(s: string): (r: string)
    ensures IsStripped(r) && |r| <= |s|
  {
    var a := SpanStart(s, 0);
    s[a..SpanEnd(s, a, |s|)]
  }

  /** `lstrip` removes exactly the leading whitespace. */
  lemma LStripRemovesLead(s: string)
    ensures exists i :: 0 <= i <= |s| && LStrip(s) == s[i..] && AllSpace(s[..i])
  {
    var a := SpanStart(s, 0);
    SpanStartSpaces(s, 0);
    assert AllSpace(s[..a]);
  }

  /** `strip` removes whitespace only, and only at the two ends. */
  lemma StripRemovesEnds(s: string)
    ensures exists i :: (0 <= i <= |s| - |Strip(s)| && Strip(s) == s[i..i + |Strip(s)|]
                         && AllSpace(s[..i]) && AllSpace(s[i + |Strip(s)|..]))
  {
    var a := SpanStart(s, 0);
    var b := SpanEnd(s, a, |s|);
    SpanStartSpaces(s, 0);
    SpanEndSpaces(s, a, |s|);
    assert AllSpace(s[..a]);
    assert AllSpace(s[b..]);
  }

  lemma StrippedIsFixpoint(s: string)
    requires IsStripped(s)
    ensures Strip(s) == s
  {
    SpanStartAt(s, 0, 0);
    SpanEndAt(s, 0, |s|, |s|);
  }

  /** Whitespace around a stripped text is exactly what `strip` removes. */
  lemma StripPadded(lead: string, x: string, trail: string)
    requires AllSpace(lead) && AllSpace(trail) && IsStripped(x)
    ensures Strip(lead + x + trail) == x
  {
    var t := lead + x + trail;
    var p := |lead| + |x|;
    if x == "" {
      assert forall m :: 0 <= m < |t| ==> IsSpace(t[m]) by {
        assert forall m :: 0 <= m < |lead| ==> t[m] == lead[m];
        assert forall m :: |lead| <= m < |t| ==> t[m] == trail[m - |lead|];
      }
      SpanStartAt(t, 0, |t|);
      SpanEndAt(t, |t|, |t|, |t|);
    } else {
      assert t[|lead|] == x[0] && t[p - 1] == x[|x| - 1];
      assert forall m :: 0 <= m < |lead| ==> t[m] == lead[m];
      assert forall m :: p <= m < |t| ==> t[m] == trail[m - p];
      SpanStartAt(t, 0, |lead|);
      SpanEndAt(t, |lead|, |t|, p);
      assert t[|lead|..p] == x;
    }
  }

  /** The concatenation of a list of strings, `"".join(ss)`. */
  function Concat(ss: seq<string>): string {
    if ss == [] then "" else ss[0] + Concat(ss[1..])
  }

  lemma {:induction false} ConcatAppend(a: seq<string>, b: seq<string>)
    ensures Concat(a + b) == Concat(a) + Concat(b)
  {
    if a != [] {
      assert (a + b)[1..] == a[1..] + b;
      ConcatAppend(a[1..], b);
    } else {
      assert a + b == b;
    }
  }

  /** `sep.join(xs)`. */
  function Join(sep: string, xs: seq<string>): string {
    if xs == [] then ""
    else if |xs| == 1 then xs[0]
    else xs[0] + sep + Join(sep, xs[1..])
  }

  /** Joining one more item appends the separator and the item. */
  lemma {:induction false} JoinSnoc(sep: string, xs: seq<string>, x: string)
    requires xs != []
    ensures Join(sep, xs + [x]) == Join(sep, xs) + sep + x
  {
    if |xs| == 1 {
      assert (xs + [x])[1..] == [x];
    } else {
      assert (xs + [x])[1..] == xs[1..] + [x];
      JoinSnoc(sep, xs[1..], x);
    }
  }

  /** `s.split(c)` for a single-character separator. */
  function SplitOn(s: string, c: char): (r: seq<string>)
    ensures |r| >= 1
    ensures forall i :: 0 <= i < |r| ==> c !in r[i]
  {
    if s == "" then [""]
    else
      var rest := SplitOn(s[1..], c);
      if s[0] == c then [""] + rest else [[s[0]] + rest[0]] + rest[1..]
  }

  lemma {:induction false} SplitOnPrefix(x: string, t: string, c: char)
    requires c !in x
    ensures SplitOn(x + t, c) == [x + SplitOn(t, c)[0]] + SplitOn(t, c)[1..]
    decreases |x|
  {
    if x != "" {
      assert (x + t)[1..] == x[1..] + t;
      SplitOnPrefix(x[1..], t, c);
      assert [x[0]] + (x[1..] + SplitOn(t, c)[0]) == x + SplitOn(t, c)[0];
    } else {
      assert x + t == t;
      assert x + SplitOn(t, c)[0] == SplitOn(t, c)[0];
      assert SplitOn(t, c) == [SplitOn(t, c)[0]] + SplitOn(t, c)[1..];
    }
  }

  /** Splitting on `c` undoes joining with `c` when no part contains `c`. */
  lemma {:induction false} SplitOnJoin(xs: seq<string>, c: char)
    requires xs != []
    requires forall i :: 0 <= i < |xs| ==> c !in xs[i]
    ensures SplitOn(Join([c], xs), c) == xs
  {
    if |xs| == 1 {
      SplitOnPrefix(xs[0], "", c);
      assert xs[0] + "" == xs[0];
    } else {
      var j := Join([c], xs[1..]);
      SplitOnJoin(xs[1..], c);
      assert Join([c], xs) == xs[0] + ([c] + j);
      SplitOnPrefix(xs[0], [c] + j, c);
      assert ([c] + j)[1..] == j;
      assert SplitOn([c] + j, c) == [""] + SplitOn(j, c);
      assert xs[0] + "" == xs[0];
      assert xs == [xs[0]] + xs[1..];
    }
  }

  /** Joining with `c` undoes splitting on `c`. */
  lemma {:induction false} JoinSplitOn(s: string, c: char)
    ensures Join([c], SplitOn(s, c)) == s
  {
    if s != "" {
      var rest := SplitOn(s[1..], c);
      JoinSplitOn(s[1..], c);
      if s[0] == c {
        assert s == [c] + s[1..];
      } else {
        var r := [[s[0]] + rest[0]] + rest[1..];
        if |rest| == 1 {
          assert s == [s[0]] + s[1..];
        } else {
          assert rest == [rest[0]] + rest[1..];
          assert Join([c], rest) == rest[0] + [c] + Join([c], rest[1..]);
          assert r[1..] == rest[1..];
          assert s == [s[0]] + s[1..];
        }
      }
    }
  }

  /** The characters at which Python's `str.splitlines` ends a line. */
  predicate IsLineBreak(ch: char) {
    ch == '\n' || ch == '\r' || ch == '\U{B}' || ch == '\U{C}' || ch == '\U{1C}' || ch == '\U{1D}'
    || ch == '\U{1E}' || ch == '\U{85}' || ch == '\U{2028}' || ch == '\U{2029}'
  }

  predicate NoLineBreak(s: string) {
    forall i :: 0 <= i < |s| ==> !IsLineBreak(s[i])
  }

  /**
   * `s.splitlines()`: the lines without their terminators; `"\r\n"` is one
   * terminator, and a terminator at the very end does not open an empty line.
   */
  function SplitLines(s: string): (r: seq<string>)
    ensures forall i :: 0 <= i < |r| ==> NoLineBreak(r[i])
    ensures s == "" <==> r == []
  {
    if s == "" then []
    else if IsLineBreak(s[0]) then
      var rest := if s[0] == '\r' && |s| > 1 && s[1] == '\n' then s[2..] else s[1..];
      [""] + SplitLines(rest)
    else
      var r := SplitLines(s[1..]);
      if r == [] then [[s[0]]] else [[s[0]] + r[0]] + r[1..]
  }

  /** A text without line breaks is a single line. */
  lemma {:induction false} SplitLinesSingle(s: string)
    requires s != "" && NoLineBreak(s)
    ensures SplitLines(s) == [s]
    decreases |s|
  {
    if |s| > 1 {
      SplitLinesSingle(s[1..]);
      assert s == [s[0]] + s[1..];
    } else {
      assert s[1..] == "";
      assert s == [s[0]];
    }
  }

  function LowerAscii(c: char): char {
    if 'A' <= c <= 'Z' then (c as int + 32) as char else c
  }

  /** Equal up to the case of ASCII letters. */
  predicate EqualsIgnoreCase(a: string, b: string) {
    |a| == |b| && forall i :: 0 <= i < |a| ==> LowerAscii(a[i]) == LowerAscii(b[i])
  }

  predicate IsDigit(c: char) {
    '0' <= c <= '9'
  }

  predicate AllDigits(s: string) {
    forall i :: 0 <= i < |s| ==> IsDigit(s[i])
  }

  function DigitChar(d: nat): (c: char)
    requires d < 10
    ensures IsDigit(c) && c as int - '0' as int == d
  {
    ('0' as int + d) as char
  }

  /** `str(n)` for a natural number: its decimal digits, without leading zeros. */
  function NatToString(n: nat): (r: string)
    ensures r != "" && AllDigits(r)
    ensures |r| > 1 ==> r[0] != '0'
  {
    if n < 10 then [DigitChar(n)] else NatToString(n / 10) + [DigitChar(n % 10)]
  }

  /** The number a string of decimal digits denotes. */
  function DecimalValue(s: string): nat
    requires AllDigits(s)
  {
    if s == "" then 0
    else DecimalValue(s[..|s| - 1]) * 10 + (s[|s| - 1] as int - '0' as int)
  }

  lemma {:induction false} DecimalOfNatToString(n: nat)
    ensures DecimalValue(NatToString(n)) == n
  {
    if n >= 10 {
      var r := NatToString(n);
      DecimalOfNatToString(n / 10);
      assert r[..|r| - 1] == NatToString(n / 10);
    }
  }

  /** Distinct numbers have distinct decimal strings. */
  lemma NatToStringInjective(a: nat, b: nat)
    requires NatToString(a) == NatToString(b)
    ensures a == b
  {
    DecimalOfNatToString(a);
    DecimalOfNatToString(b);
  }

  /** The first position from `i` on that holds `c`, or -1. */
  function FindFrom(s: string, c: char, i: nat): (r: int)
    requires i <= |s|
    ensures r == -1 || (i <= r < |s| && s[r] == c)
    ensures forall m :: i <= m < (if r == -1 then |s| else r) ==> s[m] != c
    decreases |s| - i
  {
    if i == |s| then -1 else if s[i] == c then i else FindFrom(s, c, i + 1)
  }

  /** `s.find(c)`: the first position of `c`, or -1. */
  function Find(s: string, c: char): (r: int)
    ensures r == -1 || (0 <= r < |s| && s[r] == c)
    ensures forall m :: 0 <= m < (if r == -1 then |s| else r) ==> s[m] != c
  {
    FindFrom(s, c, 0)
  }

  /** The last position before `n` that holds `c`, or -1. */
  function FindBefore(s: string, c: char, n: nat): (r: int)
    requires n <= |s|
    ensures -1 <= r < n && (r == -1 || s[r] == c)
    ensures forall m :: r < m < n ==> s[m] != c
  {
    if n == 0 then -1 else if s[n - 1] == c then n - 1 else FindBefore(s, c, n - 1)
  }

  /** `s.rfind(c)`: the last position of `c`, or -1. */
  function RFind(s: string, c: char): (r: int)
    ensures -1 <= r < |s| && (r == -1 || s[r] == c)
    ensures forall m :: r < m < |s| ==> s[m] != c
  {
    FindBefore(s, c, |s|)
  }

  /** `s[a:b]` for bounds within the string: empty when `b` does not exceed `a`. */
  function Slice(s: string, a: nat, b: nat): (r: string)
    requires a <= |s| && b <= |s|
    ensures a <= b ==> r == s[a..b]
    ensures b <= a ==> r == ""
  {
    if a <= b then s[a..b] else ""
  }
}
