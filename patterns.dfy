/**
 * Hand-written scanners for the few regular expressions the tools use, and
 * `re.search` / `re.sub` over them.  Every pattern is a literal head, then
 * `\s*`, then one of: a literal tail, a run of digits, or a double-quoted
 * value.  As the tail never starts with white space, the greedy `\s*` never
 * has to give characters back, so a match is found by skipping the longest
 * run of white space after the head.
 */
module Patterns {
  import opened Wrappers
  import opened Text

  datatype Pattern =
    | Spaced(head: string, tail: string, ignoreCase: bool)  // head\s*tail
    | Number(head: string)                                  // head\s*(\d+)
    | Quoted(head: string)                                  // head\s*"[^"]*"

  /** `priority:\s*0` */
  const PriorityZero: Pattern := Spaced("priority:", "0", false)
  /** `alwaysApply:\s*true` with `re.IGNORECASE` */
  const AlwaysApplyTrue: Pattern := Spaced("alwaysApply:", "true", true)
  /** `alwaysApply:\s*false` */
  const AlwaysApplyFalse: Pattern := Spaced("alwaysApply:", "false", false)
  /** `globs:\s*\[` */
  const GlobsList: Pattern := Spaced("globs:", "[", false)
  /** `priority:\s*(\d+)` */
  const PriorityNumber: Pattern := Number("priority:")
  /** `type:\s*"[^"]*"` */
  const QuotedType: Pattern := Quoted("type:")

  function IgnoreCase(p: Pattern): bool {
    p.Spaced? && p.ignoreCase
  }

  /** A character as the pattern compares it: ASCII case folded when the pattern ignores case. */
  function FoldChar(ignoreCase: bool, c: char): char {
    if ignoreCase then LowerChar(c) else c
  }

  function Fold(ignoreCase: bool, s: string): (r: string)
    ensures |r| == |s|
  {
    seq(|s|, i requires 0 <= i < |s| => FoldChar(ignoreCase, s[i]))
  }

  predicate CharEq(ignoreCase: bool, a: char, b: char) {
    FoldChar(ignoreCase, a) == FoldChar(ignoreCase, b)
  }

  /** `s` starts with the literal `lit`. */
  predicate LitPrefix(ignoreCase: bool, s: string, lit: string) {
    |lit| <= |s| && Fold(ignoreCase, s[..|lit|]) == Fold(ignoreCase, lit)
  }

  lemma LitPrefixChars(ignoreCase: bool, s: string, lit: string)
    ensures LitPrefix(ignoreCase, s, lit) <==> |lit| <= |s| && forall k :: 0 <= k < |lit| ==> CharEq(ignoreCase, s[k], lit[k])
  {
    if |lit| <= |s| && forall k :: 0 <= k < |lit| ==> CharEq(ignoreCase, s[k], lit[k]) {
      assert forall k :: 0 <= k < |lit| ==> Fold(ignoreCase, s[..|lit|])[k] == Fold(ignoreCase, lit)[k];
    }
    if LitPrefix(ignoreCase, s, lit) {
      forall k | 0 <= k < |lit|
        ensures CharEq(ignoreCase, s[k], lit[k])
      {
        assert Fold(ignoreCase, s[..|lit|])[k] == Fold(ignoreCase, lit)[k];
      }
    }
  }

  predicate NotDoubleQuote(c: char) {
    c != '"'
  }

  /** Length of the match of `p` anchored at the start of `s`, if there is one. */
  function MatchLen(p: Pattern, s: string): (r: Option<nat>)
    ensures r.Some? ==> |p.head| <= r.value <= |s|
  {
    var ic := IgnoreCase(p);
    if !LitPrefix(ic, s, p.head) then None
    else
      var n := |p.head| + RunLength(s[|p.head|..], IsSpace);
      var rest := s[n..];
      match p
      case Spaced(_, tail, _) =>
        if LitPrefix(ic, rest, tail) then Some(n + |tail|) else None
      case Number(_) =>
        var d := RunLength(rest, IsDigit);
        if d > 0 then Some(n + d) else None
      case Quoted(_) =>
        if |rest| > 0 && rest[0] == '"' then
          var q := RunLength(rest[1..], NotDoubleQuote);
          if 1 + q < |rest| then Some(n + q + 2) else None
        else None
  }

  predicate Matches(p: Pattern, s: string) {
    MatchLen(p, s).Some?
  }

  /** `re.search(p, s)` succeeds. */
  predicate HasMatch(p: Pattern, s: string)
    decreases |s|
  {
    Matches(p, s) || (|s| > 0 && HasMatch(p, s[1..]))
  }

  /** The position of the leftmost match, as `re.search(p, s).start()`. */
  function Find(p: Pattern, s: string): (r: Option<nat>)
    ensures r.Some? <==> HasMatch(p, s)
    ensures r.Some? ==> r.value <= |s| && Matches(p, s[r.value..])
    ensures r.Some? ==> forall j :: 0 <= j < r.value ==> !Matches(p, s[j..])
    decreases |s|
  {
    if Matches(p, s) then Some(0)
    else if |s| == 0 then None
    else
      match Find(p, s[1..])
      case Some(k) =>
        FindShift(p, s, k);
        Some(k + 1)
      case None => None
  }

  /** A match found in the tail of `s`, and the positions before it, shift one place right in `s`. */
  lemma FindShift(p: Pattern, s: string, k: nat)
    requires 0 < |s| && !Matches(p, s) && k <= |s| - 1
    requires forall j :: 0 <= j < k ==> !Matches(p, s[1..][j..])
    ensures s[1..][k..] == s[k + 1..]
    ensures forall j :: 0 <= j < k + 1 ==> !Matches(p, s[j..])
  {
    forall j | 1 <= j <= k
      ensures !Matches(p, s[j..])
    {
      assert s[1..][j - 1..] == s[j..];
    }
  }

  /** The value of the digit group of a `Number` match anchored at the start of `s`. */
  function NumberValue(p: Pattern, s: string): nat
    requires p.Number? && Matches(p, s)
  {
    var n := |p.head| + RunLength(s[|p.head|..], IsSpace);
    var d := RunLength(s[n..], IsDigit);
    DigitsValue(s[n..n + d])
  }

  /** `int(re.search(r'priority:\s*(\d+)', s).group(1))`, if there is a match. */
  function FirstPriority(s: string): (r: Option<nat>)
    ensures r.Some? <==> HasMatch(PriorityNumber, s)
  {
    match Find(PriorityNumber, s)
    case Some(i) => Some(NumberValue(PriorityNumber, s[i..]))
    case None => None
  }

  /** What `re.sub` puts in place of a match: a fixed text, or `\1` (the whole match) followed by a text. */
  datatype Replacement = Literal(text: string) | AppendToMatch(text: string)

  function Replace(rep: Replacement, matched: string): string {
    match rep
    case Literal(t) => t
    case AppendToMatch(t) => matched + t
  }

  /** `re.sub(p, rep, s)`: every leftmost, non-overlapping match replaced, scanning left to right. */
  function SubAll(p: Pattern, rep: Replacement, s: string): string
    requires p.head != []
    decreases |s|
  {
    if |s| == 0 then ""
    else
      match MatchLen(p, s)
      case Some(len) => Replace(rep, s[..len]) + SubAll(p, rep, s[len..])
      case None => [s[0]] + SubAll(p, rep, s[1..])
  }

  /** Substitution leaves a text without matches as it is. */
  lemma {:induction false} SubAllNoMatch(p: Pattern, rep: Replacement, s: string)
    requires p.head != []
    requires !HasMatch(p, s)
    ensures SubAll(p, rep, s) == s
    decreases |s|
  {
    if |s| > 0 {
      SubAllNoMatch(p, rep, s[1..]);
      assert [s[0]] + s[1..] == s;
    }
  }

  /** Substitution on a text with a match puts the replacement text into the result. */
  lemma {:induction false} SubAllInserts(p: Pattern, rep: Replacement, s: string)
    requires p.head != []
    requires HasMatch(p, s)
    ensures Contains(SubAll(p, rep, s), rep.text)
    decreases |s|
  {
    match MatchLen(p, s)
    case Some(len) =>
      var rest := SubAll(p, rep, s[len..]);
      if rep.Literal? {
        ContainsPrefix(rep.text, rest, rep.text);
      } else {
        ContainsAppend(s[..len], rep.text, rep.text);
        ContainsPrefix(s[..len] + rep.text, rest, rep.text);
      }
    case None =>
      SubAllInserts(p, rep, s[1..]);
      ContainsAppend([s[0]], SubAll(p, rep, s[1..]), rep.text);
  }


  /** Substitution copies the characters before the first position where a match starts. */
  lemma {:induction false} SubAllSkip(p: Pattern, rep: Replacement, s: string, i: nat)
    requires p.head != [] && i <= |s|
    requires forall k :: 0 <= k < i ==> !Matches(p, s[k..])
    ensures SubAll(p, rep, s) == s[..i] + SubAll(p, rep, s[i..])
    decreases i
  {
    if i > 0 {
      var t := s[1..];
      assert !Matches(p, s[0..]);
      assert s[0..] == s;
      assert SubAll(p, rep, s) == [s[0]] + SubAll(p, rep, t);
      forall k | 0 <= k < i - 1
        ensures !Matches(p, t[k..])
      {
        assert t[k..] == s[k + 1..];
      }
      SubAllSkip(p, rep, t, i - 1);
      TailSlices(s, i);
      Associate([s[0]], t[..i - 1], SubAll(p, rep, t[i - 1..]));
    }
  }

  /** Cutting `s[1..]` at `i - 1` is cutting `s` at `i`. */
  lemma TailSlices(s: string, i: nat)
    requires 0 < i <= |s|
    ensures s[1..][i - 1..] == s[i..] && [s[0]] + s[1..][..i - 1] == s[..i]
  {
  }

  /** Substitution on a text whose first match is at `i`, of length `len`. */
  lemma SubAllAt(p: Pattern, rep: Replacement, s: string, i: nat, len: nat)
    requires p.head != [] && i + len <= |s|
    requires forall k :: 0 <= k < i ==> !Matches(p, s[k..])
    requires MatchLen(p, s[i..]) == Some(len)
    ensures SubAll(p, rep, s) == s[..i] + Replace(rep, s[i..i + len]) + SubAll(p, rep, s[i + len..])
  {
    SubAllSkip(p, rep, s, i);
    var m := s[i..];
    assert SubAll(p, rep, m) == Replace(rep, m[..len]) + SubAll(p, rep, m[len..]);
    DropSlices(s, i, len);
    Associate(s[..i], Replace(rep, s[i..i + len]), SubAll(p, rep, s[i + len..]));
  }

  lemma Associate(a: string, b: string, c: string)
    ensures a + (b + c) == a + b + c
  {
  }

  /**
   * Substitution on a text with a match keeps the text before the leftmost
   * match, puts the replacement in place of that match, and goes on after it.
   */
  lemma SubAllFirst(p: Pattern, rep: Replacement, s: string) returns (i: nat, len: nat)
    requires p.head != [] && HasMatch(p, s)
    ensures Find(p, s) == Some(i) && MatchLen(p, s[i..]) == Some(len) && i + len <= |s|
    ensures SubAll(p, rep, s) == s[..i] + Replace(rep, s[i..i + len]) + SubAll(p, rep, s[i + len..])
  {
    i := Find(p, s).value;
    len := MatchLen(p, s[i..]).value;
    SubAllAt(p, rep, s, i, len);
  }

  /** A slice followed by the text put after it reads as one slice of `s` up to its end. */
  lemma JoinAround(s: string, i: nat, len: nat, t: string, after: string)
    requires i + len <= |s|
    ensures s[..i] + (s[i..i + len] + t) + after == s[..i + len] + t + after
  {
    assert s[..i] + s[i..i + len] == s[..i + len];
  }

  lemma DropSlices(s: string, i: nat, len: nat)
    requires i + len <= |s|
    ensures s[i..][..len] == s[i..i + len] && s[i..][len..] == s[i + len..]
  {
  }



  // ---------------------------------------------------------------------
  // After `re.sub(p, r, s)` no match of `p` is left, for the two
  // substitutions whose replacement cannot take part in a new match.
  // ---------------------------------------------------------------------

  /** The structure of a `Spaced` match: head, then white space, then tail. */
  lemma SpacedShape(p: Pattern, s: string)
    requires p.Spaced? && Matches(p, s)
    ensures var n := MatchLen(p, s).value - |p.tail|;
            && |p.head| <= n
            && LitPrefix(p.ignoreCase, s, p.head)
            && (forall k :: |p.head| <= k < n ==> IsSpace(s[k]))
            && (forall k :: 0 <= k < |p.tail| ==> CharEq(p.ignoreCase, s[n + k], p.tail[k]))
  {
    var h := |p.head|;
    var m := RunLength(s[h..], IsSpace);
    var n := h + m;
    assert MatchLen(p, s).value - |p.tail| == n;
    assert forall k :: h <= k < n ==> s[k] == s[h..][k - h];
    LitPrefixChars(p.ignoreCase, s[n..], p.tail);
    forall k | 0 <= k < |p.tail|
      ensures CharEq(p.ignoreCase, s[n + k], p.tail[k])
    {
      assert s[n..][k] == s[n + k];
    }
  }

  lemma {:induction false} RunLengthPrefix(a: string, b: string, keep: char -> bool)
    requires RunLength(a, keep) < |a| && RunLength(a, keep) < |b|
    requires a[..RunLength(a, keep) + 1] == b[..RunLength(a, keep) + 1]
    ensures RunLength(b, keep) == RunLength(a, keep)
    decreases |a|
  {
    assert a[0] == b[0];
    if keep(a[0]) {
      assert a[1..][..RunLength(a[1..], keep) + 1] == a[..RunLength(a, keep) + 1][1..];
      assert b[1..][..RunLength(a[1..], keep) + 1] == b[..RunLength(a, keep) + 1][1..];
      RunLengthPrefix(a[1..], b[1..], keep);
    }
  }

  /** A `Spaced` match depends only on the characters it covers. */
  lemma MatchPrefixOnly(p: Pattern, x: string, y: string)
    requires p.Spaced? && |p.tail| > 0 && Matches(p, x)
    requires MatchLen(p, x).value <= |y|
    requires x[..MatchLen(p, x).value] == y[..MatchLen(p, x).value]
    ensures MatchLen(p, y) == MatchLen(p, x)
  {
    var len := MatchLen(p, x).value;
    var h := |p.head|;
    SameWithin(x, y, len, 0, h);
    var m := RunLength(x[h..], IsSpace);
    SameWithin(x, y, len, h, h + m + 1);
    RunLengthPrefix(x[h..], y[h..], IsSpace);
    var n := h + m;
    SameWithin(x, y, len, n, len);
  }

  /** Strings that agree up to `len` agree on every stretch below it. */
  lemma SameWithin(x: string, y: string, len: nat, a: nat, b: nat)
    requires len <= |x| && len <= |y| && x[..len] == y[..len] && a <= b <= len
    ensures x[a..][..b - a] == y[a..][..b - a]
    ensures a == 0 ==> x[..b] == y[..b]
  {
    forall k | a <= k < b
      ensures x[k] == y[k]
    {
      assert x[k] == x[..len][k];
      assert y[k] == y[..len][k];
    }
    assert x[a..][..b - a] == y[a..][..b - a];
  }

  /** `c` can occur at no position of a match of `p`. */
  predicate Blocker(p: Pattern, c: char)
    requires p.Spaced?
  {
    && !IsSpace(c)
    && (forall k :: 0 <= k < |p.head| ==> !CharEq(p.ignoreCase, c, p.head[k]))
    && (forall k :: 0 <= k < |p.tail| ==> !CharEq(p.ignoreCase, c, p.tail[k]))
  }

  /** Every character a `Spaced` match covers is one a match can contain, and the last one ends the tail. */
  lemma MatchCovers(p: Pattern, x: string, i: nat)
    requires p.Spaced? && |p.tail| > 0 && Matches(p, x) && i < |x|
    ensures i < MatchLen(p, x).value ==> !Blocker(p, x[i])
    ensures CharEq(p.ignoreCase, x[MatchLen(p, x).value - 1], p.tail[|p.tail| - 1])
  {
    SpacedShape(p, x);
    var len := MatchLen(p, x).value;
    var n := len - |p.tail|;
    assert CharEq(p.ignoreCase, x[n + (|p.tail| - 1)], p.tail[|p.tail| - 1]);
    if i < |p.head| {
      LitPrefixChars(p.ignoreCase, x, p.head);
      assert CharEq(p.ignoreCase, x[i], p.head[i]);
    } else if n <= i < len {
      assert CharEq(p.ignoreCase, x[n + (i - n)], p.tail[i - n]);
    }
  }

  /**
   * A match that would cover position `lo` must end there or cover the
   * blocker at `kb`; if nothing between them can end a match, the match
   * stops before `lo`.
   */
  lemma MatchStopsBefore(p: Pattern, x: string, lo: nat, kb: nat)
    requires p.Spaced? && |p.tail| > 0
    requires lo <= kb < |x| && Blocker(p, x[kb])
    requires forall k :: lo <= k < kb ==> !CharEq(p.ignoreCase, x[k], p.tail[|p.tail| - 1])
    ensures Matches(p, x) ==> MatchLen(p, x).value <= lo
  {
    if Matches(p, x) {
      MatchCovers(p, x, kb);
    }
  }

  /** No match starts inside the replacement text `r`, whatever follows it. */
  ghost predicate NoMatchStartsIn(p: Pattern, r: string) {
    forall j: int, t: string :: 0 <= j < |r| ==> !Matches(p, r[j..] + t)
  }

  /** No match that starts before the replacement text `r` reaches into it. */
  ghost predicate NoMatchReaches(p: Pattern, r: string) {
    forall w: string, t: string :: |w| >= 1 && Matches(p, w + r + t) ==> MatchLen(p, w + r + t).value <= |w|
  }

  lemma {:induction false} HasMatchAppend(p: Pattern, x: string, y: string)
    requires HasMatch(p, x + y)
    ensures (exists j :: 0 <= j < |x| && Matches(p, x[j..] + y)) || HasMatch(p, y)
    decreases |x|
  {
    if |x| > 0 {
      assert x[0..] + y == x + y;
      if !Matches(p, x + y) {
        assert (x + y)[1..] == x[1..] + y;
        HasMatchAppend(p, x[1..], y);
        if j :| 0 <= j < |x[1..]| && Matches(p, x[1..][j..] + y) {
          assert x[1..][j..] == x[j + 1..];
        }
      }
    } else {
      assert x + y == y;
    }
  }

  /** The step of `PrefixMatchSurvives` where `s` itself starts with a match. */
  lemma PrefixMatchSurvivesAtMatch(p: Pattern, r: string, w: string, s: string, rest: string)
    requires p.Spaced? && |p.tail| > 0
    requires NoMatchReaches(p, r)
    requires |w| >= 1
    ensures Matches(p, w + r + rest) ==> Matches(p, w + s)
  {
    var x := w + r + rest;
    if Matches(p, x) {
      var l := MatchLen(p, x).value;
      assert l <= |w|;
      assert x[..l] == (w + s)[..l];
      MatchPrefixOnly(p, x, w + s);
    }
  }

  /** A match at the start of `w + SubAll(s)` was already a match at the start of `w + s`. */
  lemma {:induction false} PrefixMatchSurvives(p: Pattern, r: string, w: string, s: string)
    requires p.Spaced? && p.head != [] && |p.tail| > 0
    requires NoMatchReaches(p, r)
    requires |w| >= 1
    ensures Matches(p, w + SubAll(p, Literal(r), s)) ==> Matches(p, w + s)
    decreases |s|
  {
    var out := SubAll(p, Literal(r), s);
    if |s| == 0 {
      assert w + out == w + s;
    } else if MatchLen(p, s).Some? {
      var rest := SubAll(p, Literal(r), s[MatchLen(p, s).value..]);
      assert w + out == w + r + rest;
      PrefixMatchSurvivesAtMatch(p, r, w, s, rest);
    } else {
      PrefixMatchSurvives(p, r, w + [s[0]], s[1..]);
      assert w + out == (w + [s[0]]) + SubAll(p, Literal(r), s[1..]);
      assert (w + [s[0]]) + s[1..] == w + s;
    }
  }

  /**
   * When the replacement text cannot start a match and no match can reach
   * into it, substituting every match leaves none.
   */
  lemma {:induction false} SubAllRemovesMatches(p: Pattern, r: string, s: string)
    requires p.Spaced? && p.head != [] && |p.tail| > 0
    requires NoMatchStartsIn(p, r) && NoMatchReaches(p, r)
    ensures !HasMatch(p, SubAll(p, Literal(r), s))
    decreases |s|
  {
    var out := SubAll(p, Literal(r), s);
    if |s| > 0 {
      match MatchLen(p, s)
      case Some(len) =>
        var rest := SubAll(p, Literal(r), s[len..]);
        SubAllRemovesMatches(p, r, s[len..]);
        if HasMatch(p, r + rest) {
          HasMatchAppend(p, r, rest);
        }
      case None =>
        var rest := SubAll(p, Literal(r), s[1..]);
        SubAllRemovesMatches(p, r, s[1..]);
        PrefixMatchSurvives(p, r, [s[0]], s[1..]);
        assert [s[0]] + s[1..] == s;
        assert out[1..] == rest;
    }
  }

  /** The replacement text of the priority adjustment. */
  const PriorityOne: string := "priority: 1"
  /** The replacement text of the always-apply change. */
  const AlwaysApplyFalseText: string := "alwaysApply: false"

  /**
   * A character of `r` that no match can contain, with no character before
   * it that could end one, keeps every match that starts before `r` out of it.
   */
  lemma NoReachByBlocker(p: Pattern, r: string, kb: nat)
    requires p.Spaced? && |p.tail| > 0 && kb < |r| && Blocker(p, r[kb])
    requires forall k :: 0 <= k < kb ==> !CharEq(p.ignoreCase, r[k], p.tail[|p.tail| - 1])
    ensures NoMatchReaches(p, r)
  {
    forall w: string, t: string | |w| >= 1 && Matches(p, w + r + t)
      ensures MatchLen(p, w + r + t).value <= |w|
    {
      var x := w + r + t;
      assert x[|w| + kb] == r[kb];
      assert forall k :: |w| <= k < |w| + kb ==> x[k] == r[k - |w|];
      MatchStopsBefore(p, x, |w|, |w| + kb);
    }
  }

  /** Under the same conditions no match starts in `r` at or before that character. */
  lemma NoStartBeforeBlocker(p: Pattern, r: string, kb: nat, j: nat, t: string)
    requires p.Spaced? && |p.tail| > 0 && kb < |r| && Blocker(p, r[kb])
    requires forall k :: 0 <= k < kb ==> !CharEq(p.ignoreCase, r[k], p.tail[|p.tail| - 1])
    requires j <= kb
    ensures !Matches(p, r[j..] + t)
  {
    var x := r[j..] + t;
    assert x[kb - j] == r[kb];
    assert forall k :: 0 <= k < kb - j ==> x[k] == r[j + k];
    MatchStopsBefore(p, x, 0, kb - j);
  }

  lemma PriorityOneIsSafe()
    ensures NoMatchStartsIn(PriorityZero, PriorityOne) && NoMatchReaches(PriorityZero, PriorityOne)
  {
    var p, r := PriorityZero, PriorityOne;
    assert Blocker(p, r[10]);
    assert forall k :: 0 <= k < 10 ==> !CharEq(false, r[k], '0');
    forall j: int, t: string | 0 <= j < |r|
      ensures !Matches(p, r[j..] + t)
    {
      NoStartBeforeBlocker(p, r, 10, j, t);
    }
    NoReachByBlocker(p, r, 10);
  }

  lemma AlwaysApplyFalseIsSafe()
    ensures NoMatchStartsIn(AlwaysApplyTrue, AlwaysApplyFalseText)
    ensures NoMatchReaches(AlwaysApplyTrue, AlwaysApplyFalseText)
  {
    var p, r := AlwaysApplyTrue, AlwaysApplyFalseText;
    assert Blocker(p, r[13]);
    assert forall k :: 0 <= k < 13 ==> !CharEq(true, r[k], 'e');
    forall j: int, t: string | 0 <= j < |r|
      ensures !Matches(p, r[j..] + t)
    {
      if j <= 13 {
        NoStartBeforeBlocker(p, r, 13, j, t);
      } else {
        NoMatchInFalse(j, t);
      }
    }
    NoReachByBlocker(p, r, 13);
  }

  /** No `alwaysApply:\s*true` starts after the space of `alwaysApply: false`. */
  lemma NoMatchInFalse(j: int, t: string)
    requires 13 < j < |AlwaysApplyFalseText|
    ensures !Matches(AlwaysApplyTrue, AlwaysApplyFalseText[j..] + t)
  {
    var x := AlwaysApplyFalseText[j..] + t;
    LitPrefixChars(true, x, AlwaysApplyTrue.head);
    if j == 14 {
      assert x[2] == 's';
    } else {
      assert x[0] == AlwaysApplyFalseText[j];
    }
  }
}
