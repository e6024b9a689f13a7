/**
 * Character classes and string operations standing in for the Python string
 * methods and regular-expression classes that the rule tools rely on.
 * Whitespace is Python's; digits are ASCII, and word characters ASCII plus
 * Hangul; see README.md for what that leaves out.
 */
module Text {
  import opened Wrappers

  /**
   * `\s` on a `str` pattern, and what `str.strip()` and `str.split()` treat
   * as whitespace: the characters for which `str.isspace()` holds.
   */
  predicate IsSpace(c: char) {
    || ('\t' <= c <= '\r') || ('\U{1C}' <= c <= ' ')
    || c == '\U{85}' || c == '\U{A0}' || c == '\U{1680}'
    || ('\U{2000}' <= c <= '\U{200A}') || c == '\U{2028}' || c == '\U{2029}'
    || c == '\U{202F}' || c == '\U{205F}' || c == '\U{3000}'
  }

  predicate NotSpace(c: char) {
    !IsSpace(c)
  }

  /** `\d` and `str.isdigit()`, restricted to the ASCII digits. */
  predicate IsDigit(c: char) {
    '0' <= c <= '9'
  }

  /** `\w`: letters, digits and underscore; Hangul syllables and jamo are letters. */
  predicate IsWordChar(c: char) {
    || ('a' <= c <= 'z') || ('A' <= c <= 'Z') || IsDigit(c) || c == '_'
    || ('가' <= c <= '힣') || ('ㄱ' <= c <= 'ㆎ')
  }

  function LowerChar(c: char): char {
    if 'A' <= c <= 'Z' then (c as int + 32) as char else c
  }

  /** `str.lower()`. */
  function Lower(s: string): string {
    seq(|s|, i requires 0 <= i < |s| => LowerChar(s[i]))
  }

  predicate StartsWith(s: string, p: string) {
    p <= s
  }

  predicate EndsWith(s: string, p: string) {
    |p| <= |s| && s[|s| - |p|..] == p
  }

  /** `p` occurs in `s` starting at index `i`. */
  predicate OccursAt(s: string, p: string, i: int) {
    0 <= i && i + |p| <= |s| && s[i..i + |p|] == p
  }

  lemma OccursShift(s: string, p: string, j: int)
    requires |s| > 0 && j >= 1
    ensures OccursAt(s, p, j) <==> OccursAt(s[1..], p, j - 1)
  {
    if j + |p| <= |s| {
      assert s[1..][j - 1..j - 1 + |p|] == s[j..j + |p|];
    }
  }

  /** The first index at which `p` occurs in `s`, as `str.find` reports it. */
  function IndexOf(s: string, p: string): (r: Option<nat>)
    ensures r.Some? ==> OccursAt(s, p, r.value)
    ensures r.Some? ==> forall j :: 0 <= j < r.value ==> !OccursAt(s, p, j)
    ensures r.None? ==> forall j :: !OccursAt(s, p, j)
    decreases |s|
  {
    if |s| < |p| then None
    else if p <= s then Some(0)
    else
      var rest := IndexOf(s[1..], p);
      assert forall j :: j >= 1 ==> (OccursAt(s, p, j) <==> OccursAt(s[1..], p, j - 1)) by {
        forall j | j >= 1 {
          OccursShift(s, p, j);
        }
      }
      match rest
      case None => None
      case Some(k) => Some(k + 1)
  }

  /** Python's `p in s` on strings. */
  predicate Contains(s: string, p: string)
    ensures Contains(s, p) <==> exists i :: OccursAt(s, p, i)
  {
    IndexOf(s, p).Some?
  }

  lemma ContainsAppend(a: string, b: string, p: string)
    requires Contains(b, p)
    ensures Contains(a + b, p)
  {
    var i :| OccursAt(b, p, i);
    assert (a + b)[|a| + i..|a| + i + |p|] == b[i..i + |p|];
    assert OccursAt(a + b, p, |a| + i);
  }

  lemma ContainsPrefix(a: string, b: string, p: string)
    requires Contains(a, p)
    ensures Contains(a + b, p)
  {
    var i :| OccursAt(a, p, i);
    assert (a + b)[i..i + |p|] == a[i..i + |p|];
    assert OccursAt(a + b, p, i);
  }

  /** `s` without the leading characters that satisfy `drop`. */
  function TrimStart(s: string, drop: char -> bool): (r: string)
    ensures |r| <= |s| && r == s[|s| - |r|..]
    ensures r == [] || !drop(r[0])
    ensures forall i :: 0 <= i < |s| - |r| ==> drop(s[i])
    decreases |s|
  {
    if |s| > 0 && drop(s[0]) then TrimStart(s[1..], drop) else s
  }

  /** `s` without the trailing characters that satisfy `drop`. */
  function TrimEnd(s: string, drop: char -> bool): (r: string)
    ensures r <= s
    ensures r == [] || !drop(r[|r| - 1])
    ensures forall i :: |r| <= i < |s| ==> drop(s[i])
    decreases |s|
  {
    if |s| > 0 && drop(s[|s| - 1]) then TrimEnd(s[..|s| - 1], drop) else s
  }

  function Trim(s: string, drop: char -> bool): string {
    TrimEnd(TrimStart(s, drop), drop)
  }

  /** `str.strip()`. */
  function Strip(s: string): string {
    Trim(s, IsSpace)
  }

  predicate IsDoubleQuote(c: char) {
    c == '"'
  }

  predicate IsSingleQuote(c: char) {
    c == '\''
  }

  /** `s.strip('"').strip("'")`. */
  function StripQuotes(s: string): string {
    Trim(Trim(s, IsDoubleQuote), IsSingleQuote)
  }

  /** `s.replace(a, b)` for single characters. */
  function ReplaceChar(s: string, a: char, b: char): string {
    seq(|s|, i requires 0 <= i < |s| => if s[i] == a then b else s[i])
  }

  function CountChar(s: string, c: char): nat {
    if |s| == 0 then 0 else (if s[0] == c then 1 else 0) + CountChar(s[1..], c)
  }

  /** `s.split(sep)` for a one-character separator. */
  function Split(s: string, sep: char): (r: seq<string>)
    ensures |r| >= 1
    decreases |s|
  {
    if |s| == 0 then [""]
    else
      var rest := Split(s[1..], sep);
      if s[0] == sep then [""] + rest else [[s[0]] + rest[0]] + rest[1..]
  }

  /** `sep.join(xs)`. */
  function Join(xs: seq<string>, sep: char): string {
    if |xs| == 0 then ""
    else if |xs| == 1 then xs[0]
    else xs[0] + [sep] + Join(xs[1..], sep)
  }

  /** Joining the pieces of a split gives back the string. */
  lemma {:induction false} JoinSplit(s: string, sep: char)
    ensures Join(Split(s, sep), sep) == s
  {
    if |s| > 0 {
      var rest := Split(s[1..], sep);
      JoinSplit(s[1..], sep);
      if s[0] == sep {
        assert Split(s, sep) == [""] + rest;
        assert ([""] + rest)[1..] == rest;
      } else if |rest| == 1 {
        assert Split(s, sep) == [[s[0]] + rest[0]];
      } else {
        assert Split(s, sep) == [[s[0]] + rest[0]] + rest[1..];
        assert ([[s[0]] + rest[0]] + rest[1..])[1..] == rest[1..];
      }
    }
  }

  /** A split has one more piece than the string has separators. */
  lemma {:induction false} SplitLength(s: string, sep: char)
    ensures |Split(s, sep)| == CountChar(s, sep) + 1
  {
    if |s| > 0 {
      SplitLength(s[1..], sep);
    }
  }

  lemma {:induction false} SplitNoSeparator(a: string, sep: char)
    requires sep !in a
    ensures Split(a, sep) == [a]
  {
    if |a| > 0 {
      SplitNoSeparator(a[1..], sep);
      assert [a[0]] + a[1..] == a;
    }
  }

  lemma {:induction false} SplitAfterPiece(a: string, b: string, sep: char)
    requires sep !in a
    ensures Split(a + [sep] + b, sep) == [a] + Split(b, sep)
  {
    if |a| == 0 {
      assert (a + [sep] + b)[1..] == b;
    } else {
      assert (a + [sep] + b)[1..] == a[1..] + [sep] + b;
      SplitAfterPiece(a[1..], b, sep);
      assert [a[0]] + a[1..] == a;
    }
  }

  /** Splitting a join of separator-free pieces gives back the pieces. */
  lemma {:induction false} SplitJoin(xs: seq<string>, sep: char)
    requires |xs| >= 1
    requires forall i :: 0 <= i < |xs| ==> sep !in xs[i]
    ensures Split(Join(xs, sep), sep) == xs
  {
    if |xs| == 1 {
      SplitNoSeparator(xs[0], sep);
    } else {
      SplitJoin(xs[1..], sep);
      SplitAfterPiece(xs[0], Join(xs[1..], sep), sep);
      assert [xs[0]] + xs[1..] == xs;
    }
  }

  /** Length of the longest prefix of `s` whose characters satisfy `keep`. */
  function RunLength(s: string, keep: char -> bool): (n: nat)
    ensures n <= |s|
    ensures forall i :: 0 <= i < n ==> keep(s[i])
    ensures n == |s| || !keep(s[n])
    decreases |s|
  {
    if |s| > 0 && keep(s[0]) then 1 + RunLength(s[1..], keep) else 0
  }

  /** The maximal runs of `keep` characters, left to right. */
  function Runs(s: string, keep: char -> bool): (r: seq<string>)
    ensures forall i :: 0 <= i < |r| ==> |r[i]| > 0
    ensures forall i, k :: 0 <= i < |r| && 0 <= k < |r[i]| ==> keep(r[i][k])
    decreases |s|
  {
    if |s| == 0 then []
    else if !keep(s[0]) then Runs(s[1..], keep)
    else
      var n := RunLength(s, keep);
      [s[..n]] + Runs(s[n..], keep)
  }

  /** `s[i..i + n]` is a maximal run of `keep` characters of `s`: it can be extended on neither side. */
  predicate MaximalRun(s: string, keep: char -> bool, i: int, n: int) {
    && 0 <= i && 0 < n && i + n <= |s|
    && (forall k :: i <= k < i + n ==> keep(s[k]))
    && (i == 0 || !keep(s[i - 1]))
    && (i + n == |s| || !keep(s[i + n]))
  }

  /** A maximal run is a maximal run of every suffix that keeps it whole. */
  lemma RunSuffix(s: string, keep: char -> bool, i: int, n: int, m: int)
    requires 0 <= m <= i && MaximalRun(s, keep, i, n)
    ensures MaximalRun(s[m..], keep, i - m, n) && s[m..][i - m..i - m + n] == s[i..i + n]
  {
  }

  /** A maximal run at the start of a string is its first run. */
  lemma RunAtStart(s: string, keep: char -> bool, n: int)
    requires MaximalRun(s, keep, 0, n)
    ensures n == RunLength(s, keep)
  {
  }

  /** Every maximal run of `s` is one of its `Runs`. */
  lemma {:induction false} RunsComplete(s: string, keep: char -> bool, i: int, n: int)
    requires MaximalRun(s, keep, i, n)
    ensures s[i..i + n] in Runs(s, keep)
    decreases |s|
  {
    if !keep(s[0]) {
      assert keep(s[i]);
      RunSuffix(s, keep, i, n, 1);
      RunsComplete(s[1..], keep, i - 1, n);
      assert Runs(s, keep) == Runs(s[1..], keep);
    } else {
      var m := RunLength(s, keep);
      var rest := Runs(s[m..], keep);
      assert Runs(s, keep) == [s[..m]] + rest;
      if i == 0 {
        RunAtStart(s, keep, n);
        assert s[i..i + n] == s[..m];
      } else {
        assert !keep(s[i - 1]);
        RunSuffix(s, keep, i, n, m);
        RunsComplete(s[m..], keep, i - m, n);
        assert s[i..i + n] in rest;
      }
    }
  }

  /** `w` is the text of a maximal run of `keep` characters of `s`. */
  ghost predicate RunText(s: string, keep: char -> bool, w: string) {
    exists i, n :: MaximalRun(s, keep, i, n) && w == s[i..i + n]
  }

  /**
   * A maximal run of the suffix `s[m..]` is one of `s` when the suffix is
   * cut at a boundary: the character before the cut or the one after it is
   * not a `keep` character.
   */
  lemma RunTextOfSuffix(s: string, keep: char -> bool, w: string, m: int)
    requires 1 <= m <= |s| && RunText(s[m..], keep, w)
    requires !keep(s[m - 1]) || (m < |s| && !keep(s[m]))
    ensures RunText(s, keep, w)
  {
    var i, n :| MaximalRun(s[m..], keep, i, n) && w == s[m..][i..i + n];
    assert keep(s[m..][i]);
    assert s[m..][i..i + n] == s[i + m..i + m + n];
    assert MaximalRun(s, keep, i + m, n);
  }

  /** Every one of the `Runs` of `s` is a maximal run of `s`. */
  lemma {:induction false} RunsSound(s: string, keep: char -> bool, j: int)
    requires 0 <= j < |Runs(s, keep)|
    ensures RunText(s, keep, Runs(s, keep)[j])
    decreases |s|
  {
    if !keep(s[0]) {
      assert Runs(s, keep) == Runs(s[1..], keep);
      RunsSound(s[1..], keep, j);
      RunTextOfSuffix(s, keep, Runs(s, keep)[j], 1);
    } else {
      var m := RunLength(s, keep);
      var rest := Runs(s[m..], keep);
      assert Runs(s, keep) == [s[..m]] + rest;
      if j == 0 {
        assert MaximalRun(s, keep, 0, m) && Runs(s, keep)[j] == s[0..0 + m];
      } else {
        RunsSound(s[m..], keep, j - 1);
        assert Runs(s, keep)[j] == rest[j - 1];
        RunTextOfSuffix(s, keep, rest[j - 1], m);
      }
    }
  }

  /** `re.findall(r'\w+', s)` (equally `\b\w+\b`). */
  function Words(s: string): seq<string> {
    Runs(s, IsWordChar)
  }

  /** `s.split()` with no argument. */
  function SplitWhitespace(s: string): seq<string> {
    Runs(s, NotSpace)
  }

  /** `str.isdigit()`, restricted to the ASCII digits. */
  predicate AllDigits(s: string) {
    |s| > 0 && forall i :: 0 <= i < |s| ==> IsDigit(s[i])
  }

  function DigitsValue(s: string): nat
    requires forall i :: 0 <= i < |s| ==> IsDigit(s[i])
  {
    if |s| == 0 then 0 else DigitsValue(s[..|s| - 1]) * 10 + DigitValue(s[|s| - 1])
  }

  function DigitValue(c: char): nat
    requires IsDigit(c)
  {
    c as int - '0' as int
  }

  /** Decimal digits with single underscores between them, the magnitude `int()` accepts. */
  predicate IsDigitGroups(u: string) {
    && |u| > 0 && IsDigit(u[0]) && IsDigit(u[|u| - 1])
    && (forall i :: 0 <= i < |u| ==> IsDigit(u[i]) || u[i] == '_')
    && (forall i :: 0 <= i < |u| - 1 ==> u[i] == '_' ==> IsDigit(u[i + 1]))
  }

  /** The value of decimal digits and underscores: the digits, read without the underscores. */
  function GroupsValue(u: string): nat
    requires forall i :: 0 <= i < |u| ==> IsDigit(u[i]) || u[i] == '_'
  {
    if |u| == 0 then 0
    else if u[|u| - 1] == '_' then GroupsValue(u[..|u| - 1])
    else GroupsValue(u[..|u| - 1]) * 10 + DigitValue(u[|u| - 1])
  }

  /** `int(s)`: surrounding whitespace, an optional sign, then decimal digit groups. */
  function ParseInt(s: string): Option<int> {
    var t := Strip(s);
    if |t| > 0 && (t[0] == '+' || t[0] == '-') && IsDigitGroups(t[1..]) then
      var magnitude: int := GroupsValue(t[1..]);
      Some(if t[0] == '-' then -magnitude else magnitude)
    else if IsDigitGroups(t) then Some(GroupsValue(t))
    else None
  }

  function DigitChar(d: nat): (c: char)
    requires d < 10
    ensures IsDigit(c) && DigitValue(c) == d
  {
    ('0' as int + d) as char
  }

  /** The decimal digits of `n`, most significant first, without leading zeros. */
  function Digits(n: nat): (r: string)
    ensures AllDigits(r) && DigitsValue(r) == n
    ensures r[0] != '0' || n == 0
  {
    if n < 10 then [DigitChar(n)]
    else
      var r := Digits(n / 10) + [DigitChar(n % 10)];
      assert r[..|r| - 1] == Digits(n / 10);
      r
  }

  /** `str(n)`. */
  function DecimalText(n: int): string {
    if n < 0 then "-" + Digits(-n) else Digits(n)
  }

  predicate AllSpace(s: string) {
    forall i :: 0 <= i < |s| ==> IsSpace(s[i])
  }

  lemma {:induction false} TrimStartPadded(pre: string, t: string)
    requires AllSpace(pre) && |t| > 0 && !IsSpace(t[0])
    ensures TrimStart(pre + t, IsSpace) == t
    decreases |pre|
  {
    if |pre| > 0 {
      assert (pre + t)[1..] == pre[1..] + t;
      TrimStartPadded(pre[1..], t);
    } else {
      assert pre + t == t;
    }
  }

  lemma {:induction false} TrimEndPadded(t: string, post: string)
    requires AllSpace(post) && |t| > 0 && !IsSpace(t[|t| - 1])
    ensures TrimEnd(t + post, IsSpace) == t
    decreases |post|
  {
    if |post| > 0 {
      assert (t + post)[..|t + post| - 1] == t + post[..|post| - 1];
      TrimEndPadded(t, post[..|post| - 1]);
    } else {
      assert t + post == t;
    }
  }

  lemma StripPadded(pre: string, t: string, post: string)
    requires AllSpace(pre) && AllSpace(post)
    requires |t| > 0 && !IsSpace(t[0]) && !IsSpace(t[|t| - 1])
    ensures Strip(pre + t + post) == t
  {
    assert pre + t + post == pre + (t + post);
    TrimStartPadded(pre, t + post);
    TrimEndPadded(t, post);
  }

  /** `int()` reads back what `str()` writes, whatever whitespace surrounds it. */
  lemma ParseIntDecimal(n: int, pre: string, post: string)
    requires AllSpace(pre) && AllSpace(post)
    ensures ParseInt(pre + DecimalText(n) + post) == Some(n)
  {
    if n < 0 {
      var m: nat := -n;
      ParseIntNegated(m, pre, post);
      assert DecimalText(n) == "-" + Digits(m);
    } else {
      ParseIntNatural(n, pre, post);
      assert DecimalText(n) == Digits(n);
    }
  }

  lemma ParseIntNatural(n: nat, pre: string, post: string)
    requires AllSpace(pre) && AllSpace(post)
    ensures ParseInt(pre + Digits(n) + post) == Some(n)
  {
    var d := Digits(n);
    DigitGroupsPlain(d);
    StripPadded(pre, d, post);
    ParseUnsigned(pre + d + post, d);
  }

  lemma ParseIntNegated(n: nat, pre: string, post: string)
    requires AllSpace(pre) && AllSpace(post)
    ensures ParseInt(pre + ("-" + Digits(n)) + post) == Some(-(n as int))
  {
    var d := Digits(n);
    var t := "-" + d;
    DigitGroupsPlain(d);
    StripPadded(pre, t, post);
    assert Strip(pre + t + post)[1..] == d;
    ParseNegative(pre + t + post);
  }

  lemma ParseUnsigned(s: string, u: string)
    requires Strip(s) == u && IsDigitGroups(u)
    ensures ParseInt(s) == Some(GroupsValue(u))
  {
  }

  lemma ParseNegative(s: string)
    requires |Strip(s)| > 0 && Strip(s)[0] == '-' && IsDigitGroups(Strip(s)[1..])
    ensures ParseInt(s) == Some(-(GroupsValue(Strip(s)[1..]) as int))
  {
  }

  /** Underscores may separate digits, as in `1_000`, whitespace around it included. */
  lemma ParseIntUnderscores()
    ensures ParseInt(" " + "1_000" + "\n") == Some(1000)
  {
    ThousandGroups();
    StripPadded(" ", "1_000", "\n");
    ParseUnsigned(" " + "1_000" + "\n", "1_000");
  }

  lemma ThousandGroups()
    ensures IsDigitGroups("1_000") && GroupsValue("1_000") == 1000
  {
    assert GroupsValue("1") == 1 by { assert "1"[..0] == ""; }
    assert GroupsValue("1_") == 1 by { assert "1_"[..1] == "1"; }
    assert GroupsValue("1_0") == 10 by { assert "1_0"[..2] == "1_"; }
    assert GroupsValue("1_00") == 100 by { assert "1_00"[..3] == "1_0"; }
    assert "1_000"[..4] == "1_00";
  }

  /** Two underscores in a row, or one in front, make the text no number. */
  lemma ParseIntMisplacedUnderscore()
    ensures ParseInt("1__0").None? && ParseInt("_1").None?
  {
    StripPadded("", "1__0", "");
    assert "" + "1__0" + "" == "1__0";
    assert "1__0"[1] == '_' && "1__0"[2] == '_';
    StripPadded("", "_1", "");
    assert "" + "_1" + "" == "_1";
  }

  /** Plain digits are digit groups, with their own value. */
  lemma {:induction false} DigitGroupsPlain(u: string)
    requires AllDigits(u)
    ensures IsDigitGroups(u) && GroupsValue(u) == DigitsValue(u)
  {
    if |u| > 1 {
      DigitGroupsPlain(u[..|u| - 1]);
    }
  }

  lemma StripWithin(s: string)
    ensures forall c :: c in Strip(s) ==> c in s
  {
    var a := TrimStart(s, IsSpace);
    assert forall c :: c in a ==> c in s;
    assert forall c :: c in TrimEnd(a, IsSpace) ==> c in a;
  }

  /** A text without any digit is not a number. */
  lemma ParseIntNoDigit(s: string)
    requires forall c :: c in s ==> !IsDigit(c)
    ensures ParseInt(s).None?
  {
    var t := Strip(s);
    StripWithin(s);
    if |t| > 0 {
      assert t[0] in t;
      if |t| > 1 {
        assert t[1] in t;
      }
    }
  }

  /** Order-preserving subsequence: `r` is `xs` with some elements left out. */
  predicate Subsequence<T(==)>(r: seq<T>, xs: seq<T>)
    decreases |xs|
  {
    if |r| == 0 then true
    else if |xs| == 0 then false
    else (r[|r| - 1] == xs[|xs| - 1] && Subsequence(r[..|r| - 1], xs[..|xs| - 1])) || Subsequence(r, xs[..|xs| - 1])
  }

  /** `[x for x in xs if keep(x)]`. */
  function Select<T(==, !new)>(xs: seq<T>, keep: T -> bool): (r: seq<T>)
    ensures |r| <= |xs|
    ensures forall x :: x in r <==> x in xs && keep(x)
    ensures forall x :: multiset(r)[x] == if keep(x) then multiset(xs)[x] else 0
    ensures Subsequence(r, xs)
  {
    if |xs| == 0 then []
    else
      var init := xs[..|xs| - 1];
      var last := xs[|xs| - 1];
      assert xs == init + [last];
      var rest := Select(init, keep);
      if keep(last) then
        assert (rest + [last])[..|rest|] == rest;
        rest + [last]
      else rest
  }

  lemma {:induction false} SelectAll<T(!new)>(xs: seq<T>, keep: T -> bool)
    requires forall i :: 0 <= i < |xs| ==> keep(xs[i])
    ensures Select(xs, keep) == xs
  {
    if |xs| > 0 {
      SelectAll(xs[..|xs| - 1], keep);
      assert xs == xs[..|xs| - 1] + [xs[|xs| - 1]];
    }
  }

  /** Sequence without repeated elements. */
  predicate Distinct<T(==)>(xs: seq<T>) {
    forall i, j :: 0 <= i < j < |xs| ==> xs[i] != xs[j]
  }
}
