/**
 * Duplicate detection of the automatic cleanup: the core content of a rule
 * file, the anchor-based clustering of files whose core contents are more
 * than 80% similar, and the score that picks the file of a group to keep.
 */
module Duplicates {
  import opened Wrappers
  import opened Text
  import opened Header
  import opened Similarity
  import opened Files
  import opened Patterns

  // ---------------------------------------------------------------------
  // Core content
  // ---------------------------------------------------------------------

  /** A line is kept unless it is a heading or comment (`#` after indentation) without a marker of a key section. */
  predicate KeepLine(line: string) {
    !(StartsWith(Strip(line), "#") && !Contains(line, "핵심") && !Contains(line, "원칙"))
  }

  /** The lines to keep, in order. */
  function KeptLines(lines: seq<string>): (r: seq<string>)
    ensures |r| <= |lines|
    ensures forall l :: l in r <==> l in lines && KeepLine(l)
  {
    if |lines| == 0 then []
    else
      var init := lines[..|lines| - 1];
      var last := lines[|lines| - 1];
      assert forall l :: l in lines <==> l in init || l == last;
      KeptLines(init) + (if KeepLine(last) then [last] else [])
  }

  /** The kept lines are the lines that pass, in their order and multiplicity. */
  lemma {:induction false} KeptLinesInOrder(lines: seq<string>)
    ensures KeptLines(lines) == Select(lines, KeepLine)
  {
    if |lines| > 0 {
      KeptLinesInOrder(lines[..|lines| - 1]);
    }
  }

  /** The text after the header block when there is one, the whole text otherwise. */
  function Body(content: string): string {
    match FrontMatter(content)
    case Some((_, body)) => body
    case None => content
  }

  /** `_extract_core_content`: the body without comment lines. */
  function CoreContent(content: string): string {
    Join(KeptLines(Split(Body(content), '\n')), '\n')
  }

  /**
   * Splitting the core content again gives exactly the kept lines, when at
   * least one line is kept; the header block never survives.
   */
  lemma CoreContentLines(content: string)
    requires KeptLines(Split(Body(content), '\n')) != []
    ensures Split(CoreContent(content), '\n') == KeptLines(Split(Body(content), '\n'))
  {
    var lines := Split(Body(content), '\n');
    var kept := KeptLines(lines);
    forall i | 0 <= i < |kept|
      ensures '\n' !in kept[i]
    {
      assert kept[i] in lines;
      var k :| 0 <= k < |lines| && lines[k] == kept[i];
      SplitPiecesNoSeparator(Body(content), '\n', k);
    }
    SplitJoin(kept, '\n');
  }

  /** No piece of a split holds the separator. */
  lemma {:induction false} SplitPiecesNoSeparator(s: string, sep: char, k: nat)
    requires k < |Split(s, sep)|
    ensures sep !in Split(s, sep)[k]
    decreases |s|
  {
    if |s| > 0 {
      var rest := Split(s[1..], sep);
      if s[0] == sep {
        if k > 0 {
          SplitPiecesNoSeparator(s[1..], sep, k - 1);
        }
      } else if k == 0 {
        SplitPiecesNoSeparator(s[1..], sep, 0);
      } else {
        SplitPiecesNoSeparator(s[1..], sep, k);
      }
    }
  }

  // ---------------------------------------------------------------------
  // Readable files
  // ---------------------------------------------------------------------

  predicate Readable(dir: Dir, n: string) {
    n in dir && dir[n].content.Contents?
  }

  /** The keys of `rule_contents`, in insertion order: the listed files that could be read. */
  function ReadableOrder(listing: seq<string>, dir: Dir): (r: seq<string>)
    ensures forall n :: n in r <==> n in listing && Readable(dir, n)
    ensures Distinct(listing) ==> Distinct(r)
  {
    if |listing| == 0 then []
    else
      var init := listing[..|listing| - 1];
      var last := listing[|listing| - 1];
      assert forall n :: n in listing <==> n in init || n == last;
      assert forall i :: 0 <= i < |init| ==> init[i] == listing[i];
      ReadableOrder(init, dir) + (if Readable(dir, last) then [last] else [])
  }

  /** The readable files come in listing order. */
  lemma {:induction false} ReadableInOrder(listing: seq<string>, dir: Dir)
    ensures ReadableOrder(listing, dir) == Select(listing, n => Readable(dir, n))
  {
    if |listing| > 0 {
      ReadableInOrder(listing[..|listing| - 1], dir);
    }
  }

  /** The values of `rule_contents`: the core content of each readable listed file. */
  function CoresOf(listing: seq<string>, dir: Dir): (m: map<string, string>)
    ensures forall n :: n in m <==> n in listing && Readable(dir, n)
    ensures forall n :: n in m ==> Readable(dir, n) && m[n] == CoreContent(dir[n].content.text)
  {
    if |listing| == 0 then map[]
    else
      var init := listing[..|listing| - 1];
      var last := listing[|listing| - 1];
      assert forall n :: n in listing <==> n in init || n == last;
      var m := CoresOf(init, dir);
      if Readable(dir, last) then m[last := CoreContent(dir[last].content.text)] else m
  }

  // ---------------------------------------------------------------------
  // Clustering
  // ---------------------------------------------------------------------

  /** The similarity of two core contents. */
  type Measure = (string, string) -> Ratio

  predicate Covers(order: seq<string>, cores: map<string, string>) {
    forall n :: n in order ==> n in cores
  }

  /** A group under construction and the `processed` set beside it. */
  datatype Gathered = Gathered(group: seq<string>, processed: set<string>)

  /**
   * The inner loop for anchor `a` after its first `j` steps: every other
   * unprocessed file more than 80% similar to `a` joins the group and is
   * marked processed.
   */
  function Gather(order: seq<string>, cores: map<string, string>, sim: Measure, a: string, p: set<string>, j: nat)
    : (r: Gathered)
    requires j <= |order| && Covers(order, cores) && a in cores && a !in p
    ensures |r.group| >= 1 && r.group[0] == a && Distinct(r.group)
    ensures forall n :: n in r.processed <==> n in p || (n in r.group && n != a)
    ensures forall k :: 1 <= k < |r.group| ==>
              r.group[k] in order && r.group[k] !in p && Exceeds(sim(cores[a], cores[r.group[k]]))
    ensures forall k :: 0 <= k < j && order[k] != a && order[k] !in p && Exceeds(sim(cores[a], cores[order[k]])) ==>
              order[k] in r.group
  {
    if j == 0 then Gathered([a], p)
    else
      var prev := Gather(order, cores, sim, a, p, j - 1);
      var n := order[j - 1];
      if n == a || n in prev.processed then prev
      else if Exceeds(sim(cores[a], cores[n])) then Gathered(prev.group + [n], prev.processed + {n})
      else prev
  }

  /** The `processed` set and the duplicate groups found so far. */
  datatype Clustering = Clustering(processed: set<string>, groups: seq<seq<string>>)

  /**
   * The groups are genuine: each has at least two distinct files, all of
   * them processed files of `order`; no file is in two groups; every member
   * after the first is more than 80% similar to the first.
   */
  predicate WellClustered(c: Clustering, order: seq<string>, cores: map<string, string>, sim: Measure) {
    && (forall k :: 0 <= k < |c.groups| ==> |c.groups[k]| >= 2 && Distinct(c.groups[k]))
    && (forall k, n :: 0 <= k < |c.groups| && n in c.groups[k] ==> n in c.processed && n in order)
    && (forall k1, k2, n :: 0 <= k1 < k2 < |c.groups| && n in c.groups[k1] ==> n !in c.groups[k2])
    && (forall k, m :: 0 <= k < |c.groups| && 1 <= m < |c.groups[k]| ==>
          c.groups[k][0] in cores && c.groups[k][m] in cores
          && Exceeds(sim(cores[c.groups[k][0]], cores[c.groups[k][m]])))
  }

  /** The outer loop of the clustering after the first `i` anchors. */
  function ClusterUpTo(order: seq<string>, cores: map<string, string>, sim: Measure, i: nat): (c: Clustering)
    requires i <= |order| && Covers(order, cores)
    ensures WellClustered(c, order, cores, sim)
  {
    if i == 0 then Clustering({}, [])
    else
      var c := ClusterUpTo(order, cores, sim, i - 1);
      var a := order[i - 1];
      if a in c.processed then c
      else
        var g := Gather(order, cores, sim, a, c.processed, |order|);
        if |g.group| > 1 then
          var next := Clustering(g.processed + {a}, c.groups + [g.group]);
          AddGroup(c, g, a, next, order, cores, sim);
          next
        else Clustering(g.processed, c.groups)
  }

  lemma AddGroup(c: Clustering, g: Gathered, a: string, next: Clustering,
                 order: seq<string>, cores: map<string, string>, sim: Measure)
    requires WellClustered(c, order, cores, sim) && Covers(order, cores)
    requires a in order && a !in c.processed
    requires |g.group| >= 2 && g.group[0] == a && Distinct(g.group)
    requires forall n :: n in g.processed <==> n in c.processed || (n in g.group && n != a)
    requires forall k :: 1 <= k < |g.group| ==>
               g.group[k] in order && g.group[k] !in c.processed && Exceeds(sim(cores[a], cores[g.group[k]]))
    requires next == Clustering(g.processed + {a}, c.groups + [g.group])
    ensures WellClustered(next, order, cores, sim)
  {
    var last := |c.groups|;
    forall n | n in g.group
      ensures n !in c.processed && n in order
    {
      var k :| 0 <= k < |g.group| && g.group[k] == n;
    }
    forall k1, k2, n | 0 <= k1 < k2 < |next.groups| && n in next.groups[k1]
      ensures n !in next.groups[k2]
    {
      if k2 == last {
        assert n in c.processed;
      }
    }
  }

  /** The outer loop never takes a file out of `processed`: a file processed after `i` anchors still is after `i2`. */
  lemma {:induction false} ProcessedKept(order: seq<string>, cores: map<string, string>, sim: Measure,
                                         i: nat, i2: nat, n: string)
    requires i <= i2 <= |order| && Covers(order, cores)
    requires n in ClusterUpTo(order, cores, sim, i).processed
    ensures n in ClusterUpTo(order, cores, sim, i2).processed
    decreases i2 - i
  {
    if i < i2 {
      ProcessedStep(order, cores, sim, i, n);
      ProcessedKept(order, cores, sim, i + 1, i2, n);
    }
  }

  lemma ProcessedStep(order: seq<string>, cores: map<string, string>, sim: Measure, i: nat, n: string)
    requires i < |order| && Covers(order, cores)
    requires n in ClusterUpTo(order, cores, sim, i).processed
    ensures n in ClusterUpTo(order, cores, sim, i + 1).processed
  {
    var c := ClusterUpTo(order, cores, sim, i);
    var a := order[i];
    if a !in c.processed {
      var g := Gather(order, cores, sim, a, c.processed, |order|);
      assert c.processed <= g.processed;
    }
  }

  /** A processed file is a member of one of the groups. */
  lemma {:induction false} ProcessedAreGrouped(order: seq<string>, cores: map<string, string>, sim: Measure, i: nat)
    requires i <= |order| && Covers(order, cores)
    ensures forall n :: n in ClusterUpTo(order, cores, sim, i).processed ==>
              exists k :: 0 <= k < |ClusterUpTo(order, cores, sim, i).groups| && n in ClusterUpTo(order, cores, sim, i).groups[k]
  {
    if i > 0 {
      ProcessedAreGrouped(order, cores, sim, i - 1);
      var c := ClusterUpTo(order, cores, sim, i - 1);
      var a := order[i - 1];
      if a !in c.processed {
        var g := Gather(order, cores, sim, a, c.processed, |order|);
        var next := ClusterUpTo(order, cores, sim, i);
        forall n | n in next.processed
          ensures exists k :: 0 <= k < |next.groups| && n in next.groups[k]
        {
          if n in c.processed {
            var k :| 0 <= k < |c.groups| && n in c.groups[k];
            assert next.groups[k] == c.groups[k];
          } else {
            assert n in g.group && |g.group| > 1;
            assert next.groups[|c.groups|] == g.group;
          }
        }
      }
    }
  }

  /**
   * When the anchor `order[i]` has its turn, it or any file more than 80%
   * similar to it ends up processed, that is, in a group.
   */
  lemma AnchorTurn(order: seq<string>, cores: map<string, string>, sim: Measure, i: nat, y: string)
    requires i < |order| && Covers(order, cores)
    requires y in order && y != order[i] && Exceeds(sim(cores[order[i]], cores[y]))
    ensures order[i] in ClusterUpTo(order, cores, sim, i + 1).processed || y in ClusterUpTo(order, cores, sim, i + 1).processed
  {
    var c := ClusterUpTo(order, cores, sim, i);
    var a := order[i];
    if a !in c.processed && y !in c.processed {
      var g := Gather(order, cores, sim, a, c.processed, |order|);
      var ky :| 0 <= ky < |order| && order[ky] == y;
      assert y in g.group;
      assert g.group[0] == a;
      assert |g.group| > 1;
    }
  }

  /**
   * The clustering misses no pair: of two distinct files where the second is
   * more than 80% similar to the first, at least one is in a group.
   */
  lemma ClustersMaximal(order: seq<string>, cores: map<string, string>, sim: Measure, x: string, y: string)
    requires Covers(order, cores)
    requires x in order && y in order && x != y && Exceeds(sim(cores[x], cores[y]))
    ensures exists k :: 0 <= k < |Clusters(order, cores, sim)| && (x in Clusters(order, cores, sim)[k] || y in Clusters(order, cores, sim)[k])
  {
    var i :| 0 <= i < |order| && order[i] == x;
    var n := PairProcessed(order, cores, sim, i, y);
    var k := GroupedAtEnd(order, cores, sim, n);
  }

  /** Of the file at `i` and a file above the threshold against it, one is processed by the end. */
  lemma PairProcessed(order: seq<string>, cores: map<string, string>, sim: Measure, i: nat, y: string) returns (n: string)
    requires i < |order| && Covers(order, cores)
    requires y in order && y != order[i] && Exceeds(sim(cores[order[i]], cores[y]))
    ensures (n == order[i] || n == y) && n in ClusterUpTo(order, cores, sim, |order|).processed
  {
    AnchorTurn(order, cores, sim, i, y);
    if order[i] in ClusterUpTo(order, cores, sim, i + 1).processed {
      n := order[i];
    } else {
      n := y;
    }
    ProcessedKept(order, cores, sim, i + 1, |order|, n);
  }

  /** A file processed by the end of the outer loop is in one of the groups. */
  lemma GroupedAtEnd(order: seq<string>, cores: map<string, string>, sim: Measure, n: string) returns (k: nat)
    requires Covers(order, cores)
    requires n in ClusterUpTo(order, cores, sim, |order|).processed
    ensures k < |Clusters(order, cores, sim)| && n in Clusters(order, cores, sim)[k]
  {
    ProcessedAreGrouped(order, cores, sim, |order|);
    var c := ClusterUpTo(order, cores, sim, |order|);
    k :| 0 <= k < |c.groups| && n in c.groups[k];
    assert Clusters(order, cores, sim) == c.groups;
  }

  /** `duplicate_groups` for the files `order` with core contents `cores`. */
  function Clusters(order: seq<string>, cores: map<string, string>, sim: Measure): seq<seq<string>>
    requires Covers(order, cores)
  {
    ClusterUpTo(order, cores, sim, |order|).groups
  }

  // ---------------------------------------------------------------------
  // Choosing the file to keep
  // ---------------------------------------------------------------------

  /** Points for the first `priority: N` of the text: priority 0 earns 100, each step down 10 fewer. */
  function PriorityPoints(text: string): int {
    match FirstPriority(text)
    case Some(p) => (10 - p) * 10
    case None => 0
  }

  function AlwaysApplyPoints(text: string): int {
    if Contains(text, "alwaysApply: true") then 20 else 0
  }

  /** 500 to 2000 bytes earns 10 points, more than 5000 loses 10. */
  function SizePoints(size: nat): int {
    if 500 <= size <= 2000 then 10 else if size > 5000 then -10 else 0
  }

  /** A file modified in the last week earns 5 points. */
  function RecentPoints(mtime: int, now: int): int {
    if DaysOld(now, mtime) < 7 then 5 else 0
  }

  /** The score of a file from its entry, or `None` when it cannot be read. */
  function EntryScore(e: FileEntry, now: int): (r: Option<int>)
    ensures r.Some? <==> e.content.Contents?
  {
    match e.content
    case Contents(text) =>
      Some(PriorityPoints(text) + AlwaysApplyPoints(text) + SizePoints(e.size) + RecentPoints(e.mtime, now))
    case ReadError(_) => None
  }

  /** A way of scoring a file from its entry and the current time; the cleanup uses `EntryScore`. */
  type Scorer = (FileEntry, int) -> Option<int>

  /** The score of the file `n` of `dir`, or `None` when it is missing. */
  function ScoreIn(dir: Dir, n: string, now: int, score: Scorer): Option<int> {
    if n in dir then score(dir[n], now) else None
  }

  /** The score of a file, or `None` when it is missing or cannot be read. */
  function Score(dir: Dir, n: string, now: int): (r: Option<int>)
    ensures r.Some? <==> Readable(dir, n)
  {
    ScoreIn(dir, n, now, EntryScore)
  }

  /** The score of each file of the group, in group order. */
  function Scores(group: seq<string>, dir: Dir, now: int, score: Scorer): (r: seq<Option<int>>)
    ensures |r| == |group|
  {
    seq(|group|, i requires 0 <= i < |group| => ScoreIn(dir, group[i], now, score))
  }

  /**
   * The loop of `_select_best_rule` after `n` files with scores `scores`:
   * the index of the best file so far and its score, starting from no file
   * and score -1; a file replaces the best only with a strictly higher score.
   */
  function BestSoFar(scores: seq<Option<int>>, n: nat): (r: (Option<nat>, int))
    requires n <= |scores|
    ensures r.0.None? ==> r.1 == -1 && forall j :: 0 <= j < n && scores[j].Some? ==> scores[j].value <= -1
    ensures r.0.Some? ==> r.0.value < n && scores[r.0.value] == Some(r.1) && r.1 >= 0
    ensures r.0.Some? ==> forall j :: 0 <= j < n && scores[j].Some? ==> scores[j].value <= r.1
    ensures r.0.Some? ==> forall j :: 0 <= j < r.0.value && scores[j].Some? ==> scores[j].value < r.1
  {
    if n == 0 then (None, -1)
    else
      var prev := BestSoFar(scores, n - 1);
      var s := scores[n - 1];
      if s.Some? && s.value > prev.1 then (Some(n - 1), s.value) else prev
  }

  /** The file kept from a group under the scoring `score`: the best file, or the first when none scores at least 0. */
  function Keeper(group: seq<string>, dir: Dir, now: int, score: Scorer): (keep: string)
    requires |group| > 0
    ensures keep in group
  {
    var best := BestSoFar(Scores(group, dir, now, score), |group|).0;
    if best.Some? then group[best.value] else group[0]
  }

  /** `_select_best_rule`. */
  function BestRule(group: seq<string>, dir: Dir, now: int): string
    requires |group| > 0
  {
    Keeper(group, dir, now, EntryScore)
  }

  /**
   * The kept file is a member of the group. When some file scores at least 0
   * it has the highest score, and every earlier file scores strictly less
   * (ties go to the earliest); otherwise it is the first file.
   */
  lemma BestRuleChoice(group: seq<string>, dir: Dir, now: int)
    requires |group| > 0
    ensures BestRule(group, dir, now) in group
    ensures (exists j :: 0 <= j < |group| && Score(dir, group[j], now).Some? && Score(dir, group[j], now).value >= 0)
            ==> exists k :: 0 <= k < |group| && group[k] == BestRule(group, dir, now)
                  && Score(dir, group[k], now).Some?
                  && (forall j :: 0 <= j < |group| && Score(dir, group[j], now).Some? ==>
                        Score(dir, group[j], now).value <= Score(dir, group[k], now).value)
                  && (forall j :: 0 <= j < k && Score(dir, group[j], now).Some? ==>
                        Score(dir, group[j], now).value < Score(dir, group[k], now).value)
    ensures (forall j :: 0 <= j < |group| && Score(dir, group[j], now).Some? ==> Score(dir, group[j], now).value < 0)
            ==> BestRule(group, dir, now) == group[0]
  {
    var scores := Scores(group, dir, now, EntryScore);
    assert forall j :: 0 <= j < |group| ==> scores[j] == Score(dir, group[j], now);
    var r := BestSoFar(scores, |group|);
    if r.0.Some? {
      var k := r.0.value;
      assert group[k] == BestRule(group, dir, now);
    }
  }

  /** The choice reads only the group's own files: directories that agree on them give the same choice. */
  lemma KeeperLocal(group: seq<string>, d1: Dir, d2: Dir, now: int, score: Scorer)
    requires |group| > 0
    requires forall x :: x in group ==> (x in d1 <==> x in d2) && (x in d1 ==> d1[x] == d2[x])
    ensures Keeper(group, d1, now, score) == Keeper(group, d2, now, score)
  {
    forall i | 0 <= i < |group|
      ensures Scores(group, d1, now, score)[i] == Scores(group, d2, now, score)[i]
    {
      assert group[i] in group;
    }
    assert Scores(group, d1, now, score) == Scores(group, d2, now, score);
  }

  /** The files of a group other than the one kept, in group order. */
  function Without(group: seq<string>, keep: string): (r: seq<string>)
    ensures forall x :: x in r <==> x in group && x != keep
    ensures keep !in group ==> r == group
    ensures Distinct(group) && keep in group ==> |r| == |group| - 1
    ensures Distinct(group) ==> Distinct(r)
  {
    if |group| == 0 then []
    else
      var rest := Without(group[1..], keep);
      assert forall x :: x in group <==> x == group[0] || x in group[1..];
      assert Distinct(group) ==> Distinct(group[1..]);
      if group[0] == keep then
        assert Distinct(group) ==> keep !in group[1..];
        rest
      else
        assert [group[0]] + group[1..] == group;
        assert Distinct(group) ==> group[0] !in rest;
        [group[0]] + rest
  }
}
