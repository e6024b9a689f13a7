/**
 * The scheduled maintenance sweeps: archiving every rule file untouched for
 * a number of days (whatever its name), warning about rule files longer than
 * a line threshold, and the statistics and recommendations of the weekly
 * report.  Each sweep skips a file whose read, stat or move fails and goes
 * on with the next one.
 */
module Scheduler {
  import opened Text
  import opened Files
  import opened Patterns
  import opened Wrappers
  import AutoCleanup

  /** Default age, in days, past which `archive_unused_rules` archives a file. */
  const DefaultUnusedDays: int := 30
  /** Default line count above which `check_long_rules` warns. */
  const DefaultLineThreshold: int := 1000

  /** Windows and ceilings of the weekly report. */
  const RecentDays: int := 7
  const UnusedDays: int := 30
  const LongRuleLines: int := 1000
  const AlwaysApplyCeiling: nat := 20
  const UnusedCeiling: nat := 10

  // ---------------------------------------------------------------------
  // archive_unused_rules
  // ---------------------------------------------------------------------

  /** One entry of the archival list: the name, the modification time and `(now - mtime).days`. */
  datatype UnusedRule = UnusedRule(name: string, lastModified: int, daysUnused: int)

  /** The listed files last modified before `now - days`, in listing order. */
  function Unused(listing: seq<string>, dir: Dir, now: int, days: int): (r: seq<string>)
    requires forall n :: n in listing ==> n in dir
    ensures forall n :: n in r <==> n in listing && OlderThan(dir[n].mtime, now, days)
    ensures Distinct(listing) ==> Distinct(r)
  {
    if |listing| == 0 then []
    else
      var init := listing[..|listing| - 1];
      var last := listing[|listing| - 1];
      assert forall n :: n in listing <==> n in init || n == last;
      assert forall i :: 0 <= i < |init| ==> init[i] == listing[i];
      Unused(init, dir, now, days) + (if OlderThan(dir[last].mtime, now, days) then [last] else [])
  }

  /** The unused files come in listing order. */
  lemma {:induction false} UnusedInOrder(listing: seq<string>, dir: Dir, now: int, days: int)
    requires forall n :: n in listing ==> n in dir
    ensures Unused(listing, dir, now, days) == Select(listing, n => n in dir && OlderThan(dir[n].mtime, now, days))
  {
    if |listing| > 0 {
      UnusedInOrder(listing[..|listing| - 1], dir, now, days);
    }
  }

  /** The archival entries of the files `names`. */
  function Entries(names: seq<string>, dir: Dir, now: int): (r: seq<UnusedRule>)
    requires forall n :: n in names ==> n in dir
    ensures |r| == |names|
  {
    if |names| == 0 then []
    else
      var last := names[|names| - 1];
      assert last in names;
      Entries(names[..|names| - 1], dir, now) + [UnusedRule(last, dir[last].mtime, DaysOld(now, dir[last].mtime))]
  }

  /**
   * What `archive_unused_rules` returns: every unused file in a dry run,
   * otherwise only those whose move succeeded.
   */
  function ArchivedEntries(listing: seq<string>, dir: Dir, now: int, days: int, dryRun: bool): seq<UnusedRule>
    requires forall n :: n in listing ==> n in dir
  {
    var unused := Unused(listing, dir, now, days);
    Entries(if dryRun then unused else AutoCleanup.Movable(unused, dir), dir, now)
  }

  /**
   * A file is listed for archival exactly when it was last modified before
   * the strict cut-off, whatever its name; a file more than `days` whole days
   * old always is, and every listed file is at least `days` whole days old.
   */
  lemma UnusedCriteria(listing: seq<string>, dir: Dir, now: int, days: int, n: string)
    requires forall x :: x in listing ==> x in dir
    requires n in listing
    ensures n in Unused(listing, dir, now, days) <==> dir[n].mtime < now - days * SecondsPerDay
    ensures n in Unused(listing, dir, now, days) ==> DaysOld(now, dir[n].mtime) >= days
    ensures DaysOld(now, dir[n].mtime) > days ==> n in Unused(listing, dir, now, days)
  {
    OlderThanInWholeDays(dir[n].mtime, now, days);
  }

  /** The entries of `names` are those files, each with its own age. */
  lemma {:induction false} EntriesMembers(names: seq<string>, dir: Dir, now: int, e: UnusedRule)
    requires forall n :: n in names ==> n in dir
    ensures e in Entries(names, dir, now) <==>
              e.name in names && e.lastModified == dir[e.name].mtime && e.daysUnused == DaysOld(now, dir[e.name].mtime)
  {
    if |names| > 0 {
      var init := names[..|names| - 1];
      var last := names[|names| - 1];
      assert forall n :: n in names <==> n in init || n == last;
      EntriesMembers(init, dir, now, e);
    }
  }

  /**
   * Every returned entry names a listed file older than the cut-off, whose
   * `daysUnused` is at least the threshold; a dry run lists every such file,
   * and a real run lists exactly those of them that could be moved.
   */
  lemma ArchivedEntriesSound(listing: seq<string>, dir: Dir, now: int, days: int, dryRun: bool, e: UnusedRule)
    requires forall x :: x in listing ==> x in dir
    ensures e in ArchivedEntries(listing, dir, now, days, dryRun) <==>
              e.name in listing && OlderThan(dir[e.name].mtime, now, days) && (dryRun || dir[e.name].writable)
              && e.lastModified == dir[e.name].mtime && e.daysUnused == DaysOld(now, dir[e.name].mtime)
    ensures e in ArchivedEntries(listing, dir, now, days, dryRun) ==> e.daysUnused >= days
  {
    var unused := Unused(listing, dir, now, days);
    EntriesMembers(if dryRun then unused else AutoCleanup.Movable(unused, dir), dir, now, e);
    if e.name in dir {
      OlderThanInWholeDays(dir[e.name].mtime, now, days);
    }
  }

  lemma UnusedStep(listing: seq<string>, dir: Dir, now: int, days: int, i: nat)
    requires forall n :: n in listing ==> n in dir
    requires i < |listing|
    ensures forall n :: n in listing[..i] ==> n in dir
    ensures Unused(listing[..i + 1], dir, now, days)
            == Unused(listing[..i], dir, now, days) + if OlderThan(dir[listing[i]].mtime, now, days) then [listing[i]] else []
  {
    assert listing[..i + 1][..i] == listing[..i];
  }

  lemma EntriesStep(names: seq<string>, name: string, dir: Dir, now: int)
    requires name in dir && forall n :: n in names ==> n in dir
    ensures Entries(names + [name], dir, now)
            == Entries(names, dir, now) + [UnusedRule(name, dir[name].mtime, DaysOld(now, dir[name].mtime))]
  {
    assert (names + [name])[..|names|] == names;
  }

  /** Moving one more file removes it from the rules and adds it, unchanged, to the archive. */
  lemma MoveStep(dir: Dir, archive: Dir, moved: seq<string>, name: string)
    requires name in dir && forall n :: n in moved ==> n in dir
    ensures AutoCleanup.WithoutFiles(dir, moved + [name]) == AutoCleanup.WithoutFiles(dir, moved) - {name}
    ensures AutoCleanup.MovedTo(archive, dir, moved + [name]) == AutoCleanup.MovedTo(archive, dir, moved)[name := dir[name]]
  {
    assert (moved + [name])[..|moved|] == moved;
  }

  /** What one turn of the archival loop over `listing[i]` adds to the listed entries. */
  lemma EntriesTurn(listing: seq<string>, dir0: Dir, now: int, days: int, dryRun: bool, i: nat)
    requires IsListing(listing, dir0) && i < |listing|
    ensures forall n :: n in listing[..i + 1] ==> n in dir0
    ensures var entry := dir0[listing[i]];
            ArchivedEntries(listing[..i + 1], dir0, now, days, dryRun)
            == ArchivedEntries(listing[..i], dir0, now, days, dryRun)
               + (if OlderThan(entry.mtime, now, days) && (dryRun || entry.writable)
                  then [UnusedRule(listing[i], entry.mtime, DaysOld(now, entry.mtime))] else [])
  {
    var name := listing[i];
    UnusedStep(listing, dir0, now, days, i);
    var unused := Unused(listing[..i], dir0, now, days);
    if OlderThan(dir0[name].mtime, now, days) {
      AutoCleanup.MovableStep(unused, name, dir0);
      EntriesStep(unused, name, dir0, now);
      if dir0[name].writable {
        EntriesStep(AutoCleanup.Movable(unused, dir0), name, dir0, now);
      } else {
        assert AutoCleanup.Movable(unused + [name], dir0) == AutoCleanup.Movable(unused, dir0) + [];
        assert AutoCleanup.Movable(unused, dir0) + [] == AutoCleanup.Movable(unused, dir0);
      }
    } else {
      assert unused + [] == unused;
    }
  }

  /** What one turn of the archival loop over `listing[i]` takes from the rules and adds to the archive. */
  lemma MovesTurn(listing: seq<string>, dir0: Dir, archive0: Dir, now: int, days: int, i: nat)
    requires IsListing(listing, dir0) && i < |listing|
    ensures forall n :: n in listing[..i + 1] ==> n in dir0
    ensures var name := listing[i];
            var entry := dir0[name];
            var moved := AutoCleanup.Movable(Unused(listing[..i], dir0, now, days), dir0);
            var moved' := AutoCleanup.Movable(Unused(listing[..i + 1], dir0, now, days), dir0);
            && name in AutoCleanup.WithoutFiles(dir0, moved) && AutoCleanup.WithoutFiles(dir0, moved)[name] == entry
            && AutoCleanup.WithoutFiles(dir0, moved')
               == (if OlderThan(entry.mtime, now, days) && entry.writable
                   then AutoCleanup.WithoutFiles(dir0, moved) - {name} else AutoCleanup.WithoutFiles(dir0, moved))
            && AutoCleanup.MovedTo(archive0, dir0, moved')
               == (if OlderThan(entry.mtime, now, days) && entry.writable
                   then AutoCleanup.MovedTo(archive0, dir0, moved)[name := entry] else AutoCleanup.MovedTo(archive0, dir0, moved))
  {
    var name := listing[i];
    UnusedStep(listing, dir0, now, days, i);
    var unused := Unused(listing[..i], dir0, now, days);
    var moved := AutoCleanup.Movable(unused, dir0);
    AutoCleanup.NotYetMoved(listing, i, moved);
    AutoCleanup.StillPresent(dir0, moved, name);
    if OlderThan(dir0[name].mtime, now, days) {
      AutoCleanup.MovableStep(unused, name, dir0);
      if dir0[name].writable {
        MoveStep(dir0, archive0, moved, name);
      } else {
        assert moved + [] == moved;
      }
    } else {
      assert unused + [] == unused;
    }
  }

  /**
   * The archival loop over the rules `dir0` listed by `listing`, with the
   * archive `archive0`: lists every file last modified more than `days` days
   * before `now` and, unless this is a dry run, moves it to the archive; a
   * file whose move fails is skipped and not listed.
   */
  method SweepUnused(listing: seq<string>, dir0: Dir, archive0: Dir, days: int, dryRun: bool, now: int)
    returns (archived: seq<UnusedRule>, rules: Dir, archive: Dir)
    requires IsListing(listing, dir0)
    ensures archived == ArchivedEntries(listing, dir0, now, days, dryRun)
    ensures dryRun ==> rules == dir0 && archive == archive0
    ensures !dryRun ==>
              var moved := AutoCleanup.Movable(Unused(listing, dir0, now, days), dir0);
              rules == AutoCleanup.WithoutFiles(dir0, moved) && archive == AutoCleanup.MovedTo(archive0, dir0, moved)
  {
    rules := dir0;
    archive := archive0;
    archived := [];
    for i := 0 to |listing|
      invariant forall n :: n in listing[..i] ==> n in dir0
      invariant archived == ArchivedEntries(listing[..i], dir0, now, days, dryRun)
      invariant dryRun ==> rules == dir0 && archive == archive0
      invariant !dryRun ==>
                  var moved := AutoCleanup.Movable(Unused(listing[..i], dir0, now, days), dir0);
                  rules == AutoCleanup.WithoutFiles(dir0, moved) && archive == AutoCleanup.MovedTo(archive0, dir0, moved)
    {
      var name := listing[i];
      EntriesTurn(listing, dir0, now, days, dryRun, i);
      MovesTurn(listing, dir0, archive0, now, days, i);
      var entry := rules[name];
      if OlderThan(entry.mtime, now, days) {
        if dryRun {
          archived := archived + [UnusedRule(name, entry.mtime, DaysOld(now, entry.mtime))];
        } else if entry.writable {
          // a failed move raises before the entry is appended
          rules := rules - {name};
          archive := archive[name := entry];
          archived := archived + [UnusedRule(name, entry.mtime, DaysOld(now, entry.mtime))];
        }
      }
    }
    assert listing[..|listing|] == listing;
  }

  /** `archive_unused_rules` on the rule directory and the archive of `fs`. */
  method ArchiveUnusedRules(fs: FileSystem, listing: seq<string>, daysThreshold: int, dryRun: bool, now: int)
    returns (archived: seq<UnusedRule>)
    requires IsListing(listing, fs.rules)
    modifies fs
    ensures archived == ArchivedEntries(listing, old(fs.rules), now, daysThreshold, dryRun)
    ensures fs.backup == old(fs.backup)
    ensures dryRun ==> fs.rules == old(fs.rules) && fs.archive == old(fs.archive)
    ensures !dryRun ==>
              var moved := AutoCleanup.Movable(Unused(listing, old(fs.rules), now, daysThreshold), old(fs.rules));
              fs.rules == AutoCleanup.WithoutFiles(old(fs.rules), moved)
              && fs.archive == AutoCleanup.MovedTo(old(fs.archive), old(fs.rules), moved)
  {
    var rules, archive;
    archived, rules, archive := SweepUnused(listing, fs.rules, fs.archive, daysThreshold, dryRun, now);
    fs.rules := rules;
    fs.archive := archive;
  }

  // ---------------------------------------------------------------------
  // check_long_rules
  // ---------------------------------------------------------------------

  /** A long-rule warning: the name, the line count and the size in bytes. */
  datatype LongRule = LongRule(name: string, lines: nat, size: nat)

  /** `len(content.split('\n'))`. */
  function LineCount(text: string): nat {
    |Split(text, '\n')|
  }

  /** The line count is one more than the number of newlines. */
  lemma LineCountIsNewlines(text: string)
    ensures LineCount(text) == CountChar(text, '\n') + 1
  {
    SplitLength(text, '\n');
  }

  /** The warnings for the readable listed files with more than `threshold` lines, in listing order. */
  function LongRules(listing: seq<string>, dir: Dir, threshold: int): (r: seq<LongRule>)
    requires forall n :: n in listing ==> n in dir
    ensures |r| <= |listing|
  {
    if |listing| == 0 then []
    else
      var last := listing[|listing| - 1];
      assert last in listing;
      var entry := dir[last];
      LongRules(listing[..|listing| - 1], dir, threshold)
        + match entry.content
          case Contents(text) =>
            if LineCount(text) > threshold then [LongRule(last, LineCount(text), entry.size)] else []
          case ReadError(_) => []
  }

  /**
   * A warning names a listed readable file and carries its size and line
   * count, which is its number of newlines plus one and strictly above the
   * threshold; every such file is warned about; an unreadable file never is.
   */
  lemma {:induction false} LongRulesExact(listing: seq<string>, dir: Dir, threshold: int, w: LongRule)
    requires forall n :: n in listing ==> n in dir
    ensures w in LongRules(listing, dir, threshold) <==>
              w.name in listing && dir[w.name].content.Contents?
              && w.lines == CountChar(dir[w.name].content.text, '\n') + 1 && w.lines > threshold
              && w.size == dir[w.name].size
  {
    if |listing| > 0 {
      var init := listing[..|listing| - 1];
      var last := listing[|listing| - 1];
      assert forall n :: n in listing <==> n in init || n == last;
      LongRulesExact(init, dir, threshold, w);
      if dir[last].content.Contents? {
        LineCountIsNewlines(dir[last].content.text);
      }
      if w.name in dir && dir[w.name].content.Contents? {
        LineCountIsNewlines(dir[w.name].content.text);
      }
    }
  }

  lemma LongRulesStep(listing: seq<string>, dir: Dir, threshold: int, i: nat)
    requires forall n :: n in listing ==> n in dir
    requires i < |listing|
    ensures forall n :: n in listing[..i] ==> n in dir
    ensures LongRules(listing[..i + 1], dir, threshold)
            == LongRules(listing[..i], dir, threshold)
               + match dir[listing[i]].content
                 case Contents(text) =>
                   if LineCount(text) > threshold then [LongRule(listing[i], LineCount(text), dir[listing[i]].size)] else []
                 case ReadError(_) => []
  {
    assert listing[..i + 1][..i] == listing[..i];
  }

  /** `check_long_rules`: warns about every readable rule file with more than `threshold` lines. */
  method CheckLongRules(listing: seq<string>, dir: Dir, threshold: int) returns (warnings: seq<LongRule>)
    requires IsListing(listing, dir)
    ensures warnings == LongRules(listing, dir, threshold)
  {
    warnings := [];
    for i := 0 to |listing|
      invariant warnings == LongRules(listing[..i], dir, threshold)
    {
      var name := listing[i];
      LongRulesStep(listing, dir, threshold, i);
      var entry := dir[name];
      match entry.content {
        case ReadError(_) =>
          // the read raised: the file is skipped
        case Contents(text) =>
          var lines := |Split(text, '\n')|;
          if lines > threshold {
            warnings := warnings + [LongRule(name, lines, entry.size)];
          }
      }
    }
    assert listing[..|listing|] == listing;
  }

  // ---------------------------------------------------------------------
  // generate_weekly_report: statistics and recommendations
  // ---------------------------------------------------------------------

  /**
   * The statistics of the weekly report; `priorities` holds one copy of a
   * priority per file whose first `priority:` value it is, which is what
   * the per-priority counters of `priority_distribution` add up to.
   */
  datatype WeeklyStats = WeeklyStats(
    totalRules: nat, alwaysApply: nat, priorities: multiset<nat>,
    recentlyModified: nat, unused: nat, longRules: nat)

  /** What one file adds to the statistics other than the total; an unreadable file adds nothing. */
  function Count(s: WeeklyStats, entry: FileEntry, now: int): WeeklyStats {
    match entry.content
    case ReadError(_) => s
    case Contents(text) =>
      s.(alwaysApply := s.alwaysApply + (if HasMatch(AlwaysApplyTrue, text) then 1 else 0),
         priorities := s.priorities + (match FirstPriority(text) case Some(p) => multiset{p} case None => multiset{}),
         recentlyModified := s.recentlyModified + (if NewerThan(entry.mtime, now, RecentDays) then 1 else 0),
         unused := s.unused + (if OlderThan(entry.mtime, now, UnusedDays) then 1 else 0),
         longRules := s.longRules + (if LineCount(text) > LongRuleLines then 1 else 0))
  }

  lemma CountKeepsTotal(s: WeeklyStats, entry: FileEntry, now: int, total: nat)
    ensures Count(s, entry, now).totalRules == s.totalRules
    ensures Count(s.(totalRules := total), entry, now) == Count(s, entry, now).(totalRules := total)
  {
  }

  /** The statistics of the listed files. */
  function Weekly(listing: seq<string>, dir: Dir, now: int): (s: WeeklyStats)
    requires forall n :: n in listing ==> n in dir
    ensures s.totalRules == |listing|
  {
    if |listing| == 0 then WeeklyStats(0, 0, multiset{}, 0, 0, 0)
    else
      var last := listing[|listing| - 1];
      assert last in listing;
      var s := Count(Weekly(listing[..|listing| - 1], dir, now), dir[last], now);
      s.(totalRules := s.totalRules + 1)
  }

  /**
   * Every counter is at most the number of files, the per-priority counts
   * add up to at most that number, and no file is both recently modified
   * and unused, so those two counters together are at most that number.
   */
  lemma {:induction false} WeeklyBounds(listing: seq<string>, dir: Dir, now: int)
    requires forall n :: n in listing ==> n in dir
    ensures var s := Weekly(listing, dir, now);
            s.alwaysApply <= s.totalRules && |s.priorities| <= s.totalRules
            && s.recentlyModified + s.unused <= s.totalRules && s.longRules <= s.totalRules
  {
    if |listing| > 0 {
      var last := listing[|listing| - 1];
      assert last in listing;
      WeeklyBounds(listing[..|listing| - 1], dir, now);
    }
  }

  lemma WeeklyStep(listing: seq<string>, dir: Dir, now: int, i: nat)
    requires forall n :: n in listing ==> n in dir
    requires i < |listing|
    ensures forall n :: n in listing[..i] ==> n in dir
    ensures Weekly(listing[..i + 1], dir, now)
            == Count(Weekly(listing[..i], dir, now), dir[listing[i]], now).(totalRules := i + 1)
  {
    assert listing[..i + 1][..i] == listing[..i];
  }

  /** The statistics loop of `generate_weekly_report`. */
  method WeeklyReportStats(listing: seq<string>, dir: Dir, now: int) returns (stats: WeeklyStats)
    requires IsListing(listing, dir)
    ensures stats == Weekly(listing, dir, now)
  {
    stats := WeeklyStats(|listing|, 0, multiset{}, 0, 0, 0);
    for i := 0 to |listing|
      invariant stats.totalRules == |listing| && stats.(totalRules := i) == Weekly(listing[..i], dir, now)
    {
      var name := listing[i];
      WeeklyStep(listing, dir, now, i);
      CountKeepsTotal(stats, dir[name], now, i);
      stats := Count(stats, dir[name], now);
    }
    assert listing[..|listing|] == listing;
  }

  /** A recommendation of the weekly report. */
  datatype Recommendation =
    | ReduceAlwaysApply(count: nat)
    | ArchiveUnused(count: nat)
    | SplitLongRules(count: nat)
    | Appropriate

  /** The recommendations, in report order; "appropriate" only when nothing else fires. */
  function Recommendations(s: WeeklyStats): seq<Recommendation> {
    var found := (if s.alwaysApply > AlwaysApplyCeiling then [ReduceAlwaysApply(s.alwaysApply)] else [])
                 + (if s.unused > UnusedCeiling then [ArchiveUnused(s.unused)] else [])
                 + (if s.longRules > 0 then [SplitLongRules(s.longRules)] else []);
    if |found| == 0 then [Appropriate] else found
  }

  /**
   * Each recommendation fires exactly on its ceiling, carries its counter,
   * and "appropriate" appears exactly when none fires, and then alone.
   */
  lemma RecommendationsFire(s: WeeklyStats)
    ensures ReduceAlwaysApply(s.alwaysApply) in Recommendations(s) <==> s.alwaysApply > 20
    ensures ArchiveUnused(s.unused) in Recommendations(s) <==> s.unused > 10
    ensures SplitLongRules(s.longRules) in Recommendations(s) <==> s.longRules > 0
    ensures Appropriate in Recommendations(s) <==> s.alwaysApply <= 20 && s.unused <= 10 && s.longRules == 0
    ensures Appropriate in Recommendations(s) ==> Recommendations(s) == [Appropriate]
    ensures forall v :: v in Recommendations(s) ==>
              match v
              case ReduceAlwaysApply(n) => n == s.alwaysApply
              case ArchiveUnused(n) => n == s.unused
              case SplitLongRules(n) => n == s.longRules
              case Appropriate => true
  {
    var a := if s.alwaysApply > AlwaysApplyCeiling then [ReduceAlwaysApply(s.alwaysApply)] else [];
    var b := if s.unused > UnusedCeiling then [ArchiveUnused(s.unused)] else [];
    var c := if s.longRules > 0 then [SplitLongRules(s.longRules)] else [];
    assert forall v :: v in a + b + c <==> v in a || v in b || v in c;
  }

  /** The statistics and recommendations of `generate_weekly_report`. */
  method GenerateWeeklyReport(listing: seq<string>, dir: Dir, now: int) returns (stats: WeeklyStats, recommendations: seq<Recommendation>)
    requires IsListing(listing, dir)
    ensures stats == Weekly(listing, dir, now) && recommendations == Recommendations(stats)
    ensures |recommendations| >= 1
  {
    stats := WeeklyReportStats(listing, dir, now);
    recommendations := Recommendations(stats);
  }
}
