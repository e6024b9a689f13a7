/**
 * The automatic cleanup of the rule directory: duplicate files are copied
 * to the archive as `duplicate_<name>` and deleted, keeping the best file of
 * each group, and auto-learned rules untouched for 30 days are moved to the
 * archive.  The object keeps the counters and file lists of its statistics.
 */
module AutoCleanup {
  import opened Wrappers
  import opened Text
  import opened Similarity
  import opened Files
  import opened Duplicates

  /** Auto-learned rules older than this many days are archived. */
  const MaxAutoLearnedAgeDays: int := 30

  /** Prefix of the archive copy of a removed duplicate. */
  const DuplicatePrefix: string := "duplicate_"

  // ---------------------------------------------------------------------
  // What the cleanup removes
  // ---------------------------------------------------------------------

  /** The duplicate groups of a directory listed by `listing`. */
  function DuplicateGroups(listing: seq<string>, dir: Dir): (groups: seq<seq<string>>)
    ensures forall k :: 0 <= k < |groups| ==> |groups[k]| >= 2 && Distinct(groups[k])
    ensures forall k, n :: 0 <= k < |groups| && n in groups[k] ==> n in listing && Readable(dir, n)
    ensures forall k1, k2, n :: 0 <= k1 < k2 < |groups| && n in groups[k1] ==> n !in groups[k2]
  {
    var order := ReadableOrder(listing, dir);
    var cores := CoresOf(listing, dir);
    Clusters(order, cores, Jaccard)
  }

  /** The core content of a readable file. */
  function CoreOf(dir: Dir, n: string): string
    requires Readable(dir, n)
  {
    CoreContent(dir[n].content.text)
  }

  /** Every file of a group is more than 80% similar to the group's first file. */
  lemma DuplicateGroupsSimilar(listing: seq<string>, dir: Dir, k: int, m: int)
    requires 0 <= k < |DuplicateGroups(listing, dir)| && 1 <= m < |DuplicateGroups(listing, dir)[k]|
    ensures Exceeds(Jaccard(CoreOf(dir, DuplicateGroups(listing, dir)[k][0]), CoreOf(dir, DuplicateGroups(listing, dir)[k][m])))
  {
    var cores := CoresOf(listing, dir);
    var order := ReadableOrder(listing, dir);
    var c := ClusterUpTo(order, cores, Jaccard, |order|);
    assert DuplicateGroups(listing, dir) == c.groups;
    assert c.groups[k][0] in c.groups[k] && c.groups[k][m] in c.groups[k];
  }

  /**
   * No near-duplicate pair escapes: of two readable listed files whose cores
   * are more than 80% similar, at least one is in a duplicate group.
   */
  lemma DuplicateGroupsMaximal(listing: seq<string>, dir: Dir, x: string, y: string)
    requires x in listing && y in listing && x != y && Readable(dir, x) && Readable(dir, y)
    requires Exceeds(Jaccard(CoreOf(dir, x), CoreOf(dir, y)))
    ensures exists k :: 0 <= k < |DuplicateGroups(listing, dir)|
                        && (x in DuplicateGroups(listing, dir)[k] || y in DuplicateGroups(listing, dir)[k])
  {
    var cores := CoresOf(listing, dir);
    var order := ReadableOrder(listing, dir);
    assert x in order && y in order;
    assert cores[x] == CoreOf(dir, x) && cores[y] == CoreOf(dir, y);
    ClustersMaximal(order, cores, Jaccard, x, y);
    var groups := Clusters(order, cores, Jaccard);
    assert DuplicateGroups(listing, dir) == groups;
    var k :| 0 <= k < |groups| && (x in groups[k] || y in groups[k]);
  }

  /** The files removed from the groups: all but the kept one of each, group by group. */
  function Removals(groups: seq<seq<string>>, dir: Dir, now: int, score: Scorer): (r: seq<string>)
    requires forall k :: 0 <= k < |groups| ==> |groups[k]| > 0
    ensures forall n :: n in r ==>
              exists k :: 0 <= k < |groups| && n in Without(groups[k], Keeper(groups[k], dir, now, score))
  {
    if |groups| == 0 then []
    else
      var init := groups[..|groups| - 1];
      var last := groups[|groups| - 1];
      var prev := Removals(init, dir, now, score);
      assert forall k :: 0 <= k < |init| ==> init[k] == groups[k];
      prev + Without(last, Keeper(last, dir, now, score))
  }

  /** Σ (|g| - 1): what the cleanup reports as removed. */
  function Excess(groups: seq<seq<string>>): nat
    requires forall k :: 0 <= k < |groups| ==> |groups[k]| > 0
  {
    if |groups| == 0 then 0 else Excess(groups[..|groups| - 1]) + |groups[|groups| - 1]| - 1
  }

  /** One file fewer than each group has is removed. */
  lemma {:induction false} RemovalsCount(groups: seq<seq<string>>, dir: Dir, now: int, score: Scorer)
    requires forall k :: 0 <= k < |groups| ==> |groups[k]| > 0 && Distinct(groups[k])
    ensures |Removals(groups, dir, now, score)| == Excess(groups)
  {
    if |groups| > 0 {
      var last := groups[|groups| - 1];
      RemovalsCount(groups[..|groups| - 1], dir, now, score);
    }
  }

  /** The kept file of each group is never among the removed files. */
  lemma KeeperStays(groups: seq<seq<string>>, dir: Dir, now: int, score: Scorer, k: nat)
    requires forall i :: 0 <= i < |groups| ==> |groups[i]| > 0
    requires forall k1, k2, n :: 0 <= k1 < k2 < |groups| && n in groups[k1] ==> n !in groups[k2]
    requires k < |groups|
    ensures Keeper(groups[k], dir, now, score) in groups[k]
    ensures Keeper(groups[k], dir, now, score) !in Removals(groups, dir, now, score)
  {
    var keep := Keeper(groups[k], dir, now, score);
    forall n | n in Removals(groups, dir, now, score)
      ensures n != keep
    {
      var j :| 0 <= j < |groups| && n in Without(groups[j], Keeper(groups[j], dir, now, score));
      if j < k {
        assert n !in groups[k];
      } else if k < j {
        assert n in groups[j];
      }
    }
  }

  /** The removals of the first groups come first. */
  lemma {:induction false} RemovalsPrefix(groups: seq<seq<string>>, dir: Dir, now: int, score: Scorer, k: nat)
    requires forall i :: 0 <= i < |groups| ==> |groups[i]| > 0
    requires k <= |groups|
    ensures Removals(groups[..k], dir, now, score) <= Removals(groups, dir, now, score)
  {
    if k < |groups| {
      var init := groups[..|groups| - 1];
      RemovalsPrefix(init, dir, now, score, k);
      assert init[..k] == groups[..k];
    } else {
      assert groups[..k] == groups;
    }
  }

  lemma RemovalsStep(groups: seq<seq<string>>, dir: Dir, now: int, score: Scorer, gi: nat)
    requires forall k :: 0 <= k < |groups| ==> |groups[k]| > 0
    requires gi < |groups|
    ensures Removals(groups[..gi + 1], dir, now, score)
            == Removals(groups[..gi], dir, now, score) + Without(groups[gi], Keeper(groups[gi], dir, now, score))
  {
    assert groups[..gi + 1][..gi] == groups[..gi];
  }

  /** The removals of the earlier groups leave the files of a later group alone. */
  lemma GroupUntouched(groups: seq<seq<string>>, dir: Dir, now: int, score: Scorer, gi: nat)
    requires forall k :: 0 <= k < |groups| ==> |groups[k]| > 0
    requires forall k1, k2, n :: 0 <= k1 < k2 < |groups| && n in groups[k1] ==> n !in groups[k2]
    requires gi < |groups|
    ensures forall n :: n in Removals(groups[..gi], dir, now, score) ==> n !in groups[gi]
  {
    forall n | n in Removals(groups[..gi], dir, now, score)
      ensures n !in groups[gi]
    {
      var k :| 0 <= k < gi && n in Without(groups[..gi][k], Keeper(groups[..gi][k], dir, now, score));
      assert groups[..gi][k] == groups[k];
    }
  }

  /** `dir` without the files `names`. */
  function WithoutFiles(dir: Dir, names: seq<string>): (r: Dir)
    ensures forall n :: n in r <==> n in dir && n !in names
  {
    map n | n in dir && n !in names :: dir[n]
  }

  /** `archive` after copying each file of `names` from `dir` as `duplicate_<name>`. */
  function CopiedAs(archive: Dir, dir: Dir, names: seq<string>): Dir
    requires forall n :: n in names ==> n in dir
  {
    if |names| == 0 then archive
    else
      var last := names[|names| - 1];
      assert last in names;
      CopiedAs(archive, dir, names[..|names| - 1])[DuplicatePrefix + last := dir[last]]
  }

  /** `archive` after moving each file of `names` from `dir` into it under its own name. */
  function MovedTo(archive: Dir, dir: Dir, names: seq<string>): Dir
    requires forall n :: n in names ==> n in dir
  {
    if |names| == 0 then archive
    else
      var last := names[|names| - 1];
      assert last in names;
      MovedTo(archive, dir, names[..|names| - 1])[last := dir[last]]
  }

  /** The workspace-relative paths of the files `names` of the rule directory. */
  function Paths(names: seq<string>): (r: seq<string>)
    ensures |r| == |names|
  {
    seq(|names|, i requires 0 <= i < |names| => RulesDirPath + names[i])
  }

  // ---------------------------------------------------------------------
  // What the cleanup archives
  // ---------------------------------------------------------------------

  /** The name matches `*auto-learned*.mdc`. */
  predicate AutoLearned(name: string) {
    EndsWith(name, ".mdc") && Contains(name[..|name| - 4], "auto-learned")
  }

  /** The listed auto-learned files last modified before the 30-day cut-off, in listing order. */
  function Stale(listing: seq<string>, dir: Dir, now: int): (r: seq<string>)
    requires forall n :: n in listing ==> n in dir
    ensures forall n :: n in r <==>
              n in listing && AutoLearned(n) && OlderThan(dir[n].mtime, now, MaxAutoLearnedAgeDays)
    ensures Distinct(listing) ==> Distinct(r)
  {
    if |listing| == 0 then []
    else
      var init := listing[..|listing| - 1];
      var last := listing[|listing| - 1];
      assert forall n :: n in listing <==> n in init || n == last;
      assert forall i :: 0 <= i < |init| ==> init[i] == listing[i];
      Stale(init, dir, now)
        + (if AutoLearned(last) && OlderThan(dir[last].mtime, now, MaxAutoLearnedAgeDays) then [last] else [])
  }

  /** The stale files come in listing order. */
  lemma {:induction false} StaleInOrder(listing: seq<string>, dir: Dir, now: int)
    requires forall n :: n in listing ==> n in dir
    ensures Stale(listing, dir, now)
         == Select(listing, n => n in dir && AutoLearned(n) && OlderThan(dir[n].mtime, now, MaxAutoLearnedAgeDays))
  {
    if |listing| > 0 {
      StaleInOrder(listing[..|listing| - 1], dir, now);
    }
  }

  /** The stale files whose move succeeds. */
  function Movable(names: seq<string>, dir: Dir): (r: seq<string>)
    requires forall n :: n in names ==> n in dir
    ensures forall n :: n in r <==> n in names && dir[n].writable
    ensures |r| <= |names|
    ensures Distinct(names) ==> Distinct(r)
  {
    if |names| == 0 then []
    else
      var init := names[..|names| - 1];
      var last := names[|names| - 1];
      assert forall n :: n in names <==> n in init || n == last;
      assert forall i :: 0 <= i < |init| ==> init[i] == names[i];
      Movable(init, dir) + (if dir[last].writable then [last] else [])
  }

  /** The movable files come in the order of the stale list. */
  lemma {:induction false} MovableInOrder(names: seq<string>, dir: Dir)
    requires forall n :: n in names ==> n in dir
    ensures Movable(names, dir) == Select(names, n => n in dir && dir[n].writable)
  {
    if |names| > 0 {
      MovableInOrder(names[..|names| - 1], dir);
    }
  }

  /**
   * A file is archived only if it is auto-learned and more than 30 days
   * old, and being more than 30 whole days old is enough.
   */
  lemma StaleCriteria(listing: seq<string>, dir: Dir, now: int, n: string)
    requires forall x :: x in listing ==> x in dir
    requires n in listing
    ensures n in Stale(listing, dir, now) ==> AutoLearned(n) && DaysOld(now, dir[n].mtime) >= MaxAutoLearnedAgeDays
    ensures AutoLearned(n) && DaysOld(now, dir[n].mtime) > MaxAutoLearnedAgeDays ==> n in Stale(listing, dir, now)
    ensures !AutoLearned(n) ==> n !in Stale(listing, dir, now)
  {
    OlderThanInWholeDays(dir[n].mtime, now, MaxAutoLearnedAgeDays);
  }

  // ---------------------------------------------------------------------
  // Steps of the duplicate removal
  // ---------------------------------------------------------------------

  /** The reading loop: the core content of every listed file that can be read; the others are skipped. */
  method ReadContents(listing: seq<string>, dir: Dir) returns (order: seq<string>, cores: map<string, string>)
    requires forall n :: n in listing ==> n in dir
    ensures order == ReadableOrder(listing, dir) && cores == CoresOf(listing, dir)
  {
    order := [];
    cores := map[];
    for i := 0 to |listing|
      invariant order == ReadableOrder(listing[..i], dir)
      invariant cores == CoresOf(listing[..i], dir)
    {
      var name := listing[i];
      ReadOrderStep(listing, dir, i);
      ReadCoresStep(listing, dir, i);
      if dir[name].content.Contents? {
        var core := CoreContent(dir[name].content.text);
        order := order + [name];
        cores := cores[name := core];
      }
    }
    assert listing[..|listing|] == listing;
  }

  lemma {:induction false} ReadOrderStep(listing: seq<string>, dir: Dir, i: nat)
    requires i < |listing|
    ensures ReadableOrder(listing[..i + 1], dir)
            == ReadableOrder(listing[..i], dir) + if Readable(dir, listing[i]) then [listing[i]] else []
  {
    assert listing[..i + 1][..i] == listing[..i];
  }

  lemma {:induction false} ReadCoresStep(listing: seq<string>, dir: Dir, i: nat)
    requires i < |listing|
    ensures CoresOf(listing[..i + 1], dir)
            == if Readable(dir, listing[i])
               then CoresOf(listing[..i], dir)[listing[i] := CoreContent(dir[listing[i]].content.text)]
               else CoresOf(listing[..i], dir)
  {
    assert listing[..i + 1][..i] == listing[..i];
  }

  /** The clustering loops over the files `order` with core contents `cores`, comparing with `sim`. */
  method FindDuplicateGroups(order: seq<string>, cores: map<string, string>, sim: Measure)
    returns (groups: seq<seq<string>>)
    requires Covers(order, cores)
    ensures groups == Clusters(order, cores, sim)
  {
    var processed: set<string> := {};
    groups := [];
    for i := 0 to |order|
      invariant Clustering(processed, groups) == ClusterUpTo(order, cores, sim, i)
    {
      var a := order[i];
      if a in processed {
        continue;
      }
      var group;
      group, processed := GatherGroup(order, cores, sim, a, processed);
      if |group| > 1 {
        groups := groups + [group];
        processed := processed + {a};
      }
    }
  }

  /** The inner clustering loop: the files of `order` not yet processed that are similar to `a`, after `a`. */
  method GatherGroup(order: seq<string>, cores: map<string, string>, sim: Measure, a: string, before: set<string>)
    returns (group: seq<string>, processed: set<string>)
    requires Covers(order, cores) && a in order && a !in before
    ensures Gathered(group, processed) == Gather(order, cores, sim, a, before, |order|)
  {
    group := [a];
    processed := before;
    for j := 0 to |order|
      invariant Gathered(group, processed) == Gather(order, cores, sim, a, before, j)
    {
      var n := order[j];
      if n == a || n in processed {
        continue;
      }
      var similarity := sim(cores[a], cores[n]);
      if Exceeds(similarity) {
        group := group + [n];
        processed := processed + {n};
      }
    }
  }

  /** `_select_best_rule`: scores each file of the group in turn, keeping the first with the highest score. */
  method SelectBestRule(group: seq<string>, dir: Dir, now: int, score: Scorer) returns (best: string)
    requires |group| > 0
    ensures best == Keeper(group, dir, now, score)
  {
    var bestRule: Option<string> := None;
    var bestScore := -1;
    ghost var scores := Scores(group, dir, now, score);
    for i := 0 to |group|
      invariant bestScore == BestSoFar(scores, i).1
      invariant bestRule == if BestSoFar(scores, i).0.Some? then Some(group[BestSoFar(scores, i).0.value]) else None
    {
      var name := group[i];
      if name !in dir {
        continue;
      }
      var s := score(dir[name], now);
      if s.None? {
        continue;
      }
      if s.value > bestScore {
        bestScore := s.value;
        bestRule := Some(name);
      }
    }
    best := if bestRule.Some? then bestRule.value else group[0];
  }

  // ---------------------------------------------------------------------
  // The cleanup object
  // ---------------------------------------------------------------------

  /** The rule directory, the archive and a list of recorded paths: what the cleanup steps change. */
  datatype Effects = Effects(rules: Dir, archive: Dir, record: seq<string>)

  /**
   * After removing the duplicates `gone`: deleted from the rules, copied to
   * the archive as `duplicate_<name>` and recorded by path.
   */
  function AfterRemovals(start: Effects, gone: seq<string>): Effects
    requires forall n :: n in gone ==> n in start.rules
  {
    Effects(WithoutFiles(start.rules, gone), CopiedAs(start.archive, start.rules, gone), start.record + Paths(gone))
  }

  /** Each file of `gone` could be deleted, and removing them all from `start` gives `e`. */
  predicate RemovedAs(start: Effects, gone: seq<string>, e: Effects) {
    && (forall n :: n in gone ==> n in start.rules && start.rules[n].writable)
    && e == AfterRemovals(start, gone)
  }

  /**
   * Removing files stopped at `stuck`, which cannot be deleted: each file of
   * `gone` before it could be deleted and is removed from `start` as
   * `RemovedAs` says, and `stuck` is copied to the archive as
   * `duplicate_<name>` but stays in the rules.
   */
  predicate StuckAs(start: Effects, gone: seq<string>, stuck: string, e: Effects) {
    && stuck in start.rules && !start.rules[stuck].writable
    && (forall n :: n in gone ==> n in start.rules && start.rules[n].writable)
    && var removed := AfterRemovals(start, gone);
       e == removed.(archive := removed.archive[DuplicatePrefix + stuck := start.rules[stuck]])
  }

  /** Removing the files `all` from `start` stopped at one of them, which could not be deleted, leaving `e`. */
  ghost predicate StuckIn(start: Effects, all: seq<string>, e: Effects) {
    exists p :: 0 <= p < |all| && StuckAs(start, all[..p], all[p], e)
  }

  /** After moving the files `moved` from the rules into the archive under their own names and recording them. */
  function AfterMoves(start: Effects, moved: seq<string>): Effects
    requires forall n :: n in moved ==> n in start.rules
  {
    Effects(WithoutFiles(start.rules, moved), MovedTo(start.archive, start.rules, moved), start.record + Paths(moved))
  }

  /**
   * The removal of the files `others` of one group, the files `prev` of the
   * earlier groups being gone already: each is copied to the archive as
   * `duplicate_<name>`, then deleted and recorded. The first file that
   * cannot be deleted stops the removal and is returned, its archive copy
   * made.
   */
  method RemoveFiles(others: seq<string>, e: Effects, ghost start: Effects, ghost prev: seq<string>)
    returns (failed: Option<string>, after: Effects)
    requires Distinct(others) && forall n :: n in others ==> n in start.rules && n !in prev
    requires RemovedAs(start, prev, e)
    ensures failed.Some? ==> exists i :: 0 <= i < |others| && failed.value == others[i]
                                        && StuckAs(start, prev + others[..i], others[i], after)
    ensures failed.None? ==> RemovedAs(start, prev + others, after)
  {
    after := e;
    ghost var gone := prev;
    for oi := 0 to |others|
      invariant gone == prev + others[..oi]
      invariant RemovedAs(start, gone, after)
    {
      var name := others[oi];
      NextStillPresent(others, oi, prev, start.rules);
      var ok;
      ok, after := RemoveFile(name, after, start, gone);
      if !ok {
        assert StuckAs(start, prev + others[..oi], others[oi], after);
        return Some(name), after;
      }
      NextGone(prev, others, oi);
      gone := gone + [name];
    }
    assert others[..|others|] == others;
    return None, after;
  }

  /**
   * The removal of one duplicate, the files `gone` being removed already:
   * it is copied to the archive as `duplicate_<name>`, then deleted and
   * recorded by path; when it cannot be deleted only the copy is made.
   */
  method RemoveFile(name: string, e: Effects, ghost start: Effects, ghost gone: seq<string>)
    returns (ok: bool, after: Effects)
    requires name in start.rules && name !in gone
    requires RemovedAs(start, gone, e)
    ensures ok == start.rules[name].writable
    ensures ok ==> RemovedAs(start, gone + [name], after)
    ensures !ok ==> after == e.(archive := e.archive[DuplicatePrefix + name := start.rules[name]])
  {
    StillPresent(start.rules, gone, name);
    var entry := e.rules[name];
    var copied := e.archive[DuplicatePrefix + name := entry];
    if !entry.writable {
      return false, e.(archive := copied);
    }
    StepGone(gone, name, start);
    after := Effects(e.rules - {name}, copied, e.record + [RulesDirPath + name]);
    ok := true;
  }

  /**
   * The files of a group other than the one kept, the choice being made on
   * the directory `current`: `dir0` without the files `gone`, none of which
   * is in the group.
   */
  method OthersOf(group: seq<string>, current: Dir, ghost dir0: Dir, ghost gone: seq<string>, now: int, score: Scorer)
    returns (others: seq<string>)
    requires |group| >= 2 && Distinct(group)
    requires forall n :: n in gone ==> n !in group
    requires current == dir0 || current == WithoutFiles(dir0, gone)
    ensures others == Without(group, Keeper(group, dir0, now, score))
    ensures Distinct(others) && |others| == |group| - 1
    ensures forall n :: n in others ==> n in group
  {
    StillPresentAll(dir0, gone, group);
    KeeperLocal(group, current, dir0, now, score);
    var best := SelectBestRule(group, current, now, score);
    others := Without(group, best);
  }

  /**
   * The removal loop over the duplicate groups of the rules `start.rules`:
   * the file kept from each group is chosen on the directory as it stands,
   * and the other files are removed unless this is a dry run. It fails
   * exactly when a file to remove cannot be deleted, with the effects made
   * up to that file.
   */
  method RemoveGroups(groups: seq<seq<string>>, start: Effects, dryRun: bool, now: int, score: Scorer)
    returns (result: Result<nat>, e: Effects)
    requires forall k :: 0 <= k < |groups| ==> |groups[k]| >= 2 && Distinct(groups[k])
    requires forall k, n :: 0 <= k < |groups| && n in groups[k] ==> n in start.rules
    requires forall k1, k2, n :: 0 <= k1 < k2 < |groups| && n in groups[k1] ==> n !in groups[k2]
    ensures result.Success? ==> result.value == Excess(groups)
    ensures dryRun ==> result.Success? && e == start
    ensures !dryRun && result.Success? ==> RemovedAs(start, Removals(groups, start.rules, now, score), e)
    ensures result.Failure? ==>
              !dryRun && StuckIn(start, Removals(groups, start.rules, now, score), e)
  {
    e := start;
    var count := 0;
    ghost var gone: seq<string> := [];
    for gi := 0 to |groups|
      invariant gone == Removals(groups[..gi], start.rules, now, score) && count == |gone|
      invariant dryRun ==> e == start
      invariant !dryRun ==> RemovedAs(start, gone, e)
    {
      var failed, others;
      failed, others, e := RemoveGroupAt(groups, gi, start, dryRun, now, score, e, gone);
      if failed.Some? {
        ghost var i :| 0 <= i < |others| && StuckAs(start, gone + others[..i], others[i], e);
        StuckInRemovals(groups, start, now, score, gi, gone, others, i, e);
        return Failure("cannot delete " + failed.value), e;
      }
      gone := gone + others;
      count := count + |others|;
    }
    assert groups[..|groups|] == groups;
    RemovalsCount(groups, start.rules, now, score);
    result := Success(count);
  }

  /**
   * One turn of the removal loop: the group `groups[gi]`, the files `gone`
   * of the earlier groups being removed already unless this is a dry run.
   * It returns the files of the group other than the kept one, and the
   * first of them that cannot be deleted, if any.
   */
  method RemoveGroupAt(groups: seq<seq<string>>, gi: nat, start: Effects, dryRun: bool, now: int, score: Scorer,
                       e: Effects, ghost gone: seq<string>)
    returns (failed: Option<string>, others: seq<string>, after: Effects)
    requires forall k :: 0 <= k < |groups| ==> |groups[k]| >= 2 && Distinct(groups[k])
    requires forall k, n :: 0 <= k < |groups| && n in groups[k] ==> n in start.rules
    requires forall k1, k2, n :: 0 <= k1 < k2 < |groups| && n in groups[k1] ==> n !in groups[k2]
    requires gi < |groups| && gone == Removals(groups[..gi], start.rules, now, score)
    requires dryRun ==> e == start
    requires !dryRun ==> RemovedAs(start, gone, e)
    ensures gone + others == Removals(groups[..gi + 1], start.rules, now, score)
    ensures |others| == |groups[gi]| - 1
    ensures failed.None? && dryRun ==> after == start
    ensures failed.None? && !dryRun ==> RemovedAs(start, gone + others, after)
    ensures failed.Some? ==> !dryRun && exists i :: 0 <= i < |others| && failed.value == others[i]
                                                 && StuckAs(start, gone + others[..i], others[i], after)
  {
    var dir0 := start.rules;
    GroupUntouched(groups, dir0, now, score, gi);
    others := OthersOf(groups[gi], e.rules, dir0, gone, now, score);
    RemovalsStep(groups, dir0, now, score, gi);
    after := e;
    failed := None;
    if !dryRun {
      failed, after := RemoveFiles(others, e, start, gone);
    }
  }

  /**
   * The archiving loop over the rules `start.rules` listed by `listing`:
   * counts the auto-learned files older than 30 days and, unless this is a
   * dry run, moves each of them to the archive and records it; a file whose
   * move fails is skipped and not counted.
   */
  method ArchiveStale(listing: seq<string>, start: Effects, dryRun: bool, now: int) returns (count: nat, e: Effects)
    requires IsListing(listing, start.rules)
    ensures dryRun ==> count == |Stale(listing, start.rules, now)| && e == start
    ensures !dryRun ==>
              var moved := Movable(Stale(listing, start.rules, now), start.rules);
              count == |moved| && e == AfterMoves(start, moved)
  {
    var dir0 := start.rules;
    e := start;
    count := 0;
    ghost var stale: seq<string> := [];
    ghost var moved: seq<string> := [];
    for i := 0 to |listing|
      invariant stale == Stale(listing[..i], dir0, now)
      invariant forall n :: n in moved ==> n in listing[..i]
      invariant dryRun ==> count == |stale| && e == start
      invariant !dryRun ==> moved == Movable(stale, dir0) && count == |moved| && e == AfterMoves(start, moved)
    {
      var name := listing[i];
      StaleStep(listing, dir0, now, i);
      if AutoLearned(name) {
        NotYetMoved(listing, i, moved);
        StillPresent(dir0, moved, name);
        var entry := e.rules[name];
        if OlderThan(entry.mtime, now, MaxAutoLearnedAgeDays) {
          MovableStep(stale, name, dir0);
          stale := stale + [name];
          if dryRun {
            count := count + 1;
          } else if entry.writable {
            // a move that fails raises before the count and the record
            e := Effects(e.rules - {name}, e.archive[name := entry], e.record + [RulesDirPath + name]);
            StepMoved(moved, name, start);
            moved := moved + [name];
            count := count + 1;
          }
        }
      }
    }
    assert listing[..|listing|] == listing;
  }

  /** What `cleanup_all` reports. */
  datatype CleanupStats = CleanupStats(
    duplicatesRemoved: nat, oldRulesArchived: nat, totalRulesBefore: nat, totalRulesAfter: nat,
    removedFiles: seq<string>, archivedFiles: seq<string>)

  class RulesAutoCleanup {
    var fs: FileSystem
    var duplicatesRemoved: nat
    var oldRulesArchived: nat
    var totalRulesBefore: nat
    var totalRulesAfter: nat
    var removedFiles: seq<string>
    var archivedFiles: seq<string>

    constructor (fs: FileSystem)
      ensures this.fs == fs
      ensures Stats() == CleanupStats(0, 0, 0, 0, [], [])
    {
      this.fs := fs;
      duplicatesRemoved := 0;
      oldRulesArchived := 0;
      totalRulesBefore := 0;
      totalRulesAfter := 0;
      removedFiles := [];
      archivedFiles := [];
    }

    /** `cleanup_stats`. */
    function Stats(): CleanupStats
      reads this
    {
      CleanupStats(duplicatesRemoved, oldRulesArchived, totalRulesBefore, totalRulesAfter, removedFiles, archivedFiles)
    }

    /** The four counters of the statistics. */
    function Counters(): (nat, nat, nat, nat)
      reads this
    {
      (duplicatesRemoved, oldRulesArchived, totalRulesBefore, totalRulesAfter)
    }

    /** Writes the rule directory, the archive and the list of removed files. */
    method CommitRemovals(e: Effects)
      modifies this, fs
      ensures fs == old(fs) && fs.backup == old(fs.backup) && archivedFiles == old(archivedFiles)
      ensures Counters() == old(Counters())
      ensures Effects(fs.rules, fs.archive, removedFiles) == e
    {
      fs.rules := e.rules;
      fs.archive := e.archive;
      removedFiles := e.record;
    }

    /** Writes the rule directory, the archive and the list of archived files. */
    method CommitMoves(e: Effects)
      modifies this, fs
      ensures fs == old(fs) && fs.backup == old(fs.backup) && removedFiles == old(removedFiles)
      ensures Counters() == old(Counters())
      ensures Effects(fs.rules, fs.archive, archivedFiles) == e
    {
      fs.rules := e.rules;
      fs.archive := e.archive;
      archivedFiles := e.record;
    }

    /**
     * `remove_duplicate_rules`: the number of files beyond the kept one of
     * each duplicate group. In a dry run nothing changes. Otherwise every
     * removed file is first copied to the archive as `duplicate_<name>`, then
     * deleted and recorded; the step fails exactly when one of the files to
     * remove cannot be deleted, the files handled before it staying removed.
     */
    method RemoveDuplicateRules(listing: seq<string>, dryRun: bool, now: int) returns (result: Result<nat>)
      requires IsListing(listing, fs.rules)
      modifies this, fs
      ensures fs == old(fs) && fs.backup == old(fs.backup) && archivedFiles == old(archivedFiles)
      ensures duplicatesRemoved == old(duplicatesRemoved) && oldRulesArchived == old(oldRulesArchived)
      ensures totalRulesBefore == old(totalRulesBefore) && totalRulesAfter == old(totalRulesAfter)
      ensures result.Success? ==> result.value == Excess(DuplicateGroups(listing, old(fs.rules)))
      ensures dryRun ==> result.Success? && fs.rules == old(fs.rules) && fs.archive == old(fs.archive)
                         && removedFiles == old(removedFiles)
      ensures !dryRun && result.Success? ==>
                RemovedAs(Effects(old(fs.rules), old(fs.archive), old(removedFiles)),
                          Removals(DuplicateGroups(listing, old(fs.rules)), old(fs.rules), now, EntryScore),
                          Effects(fs.rules, fs.archive, removedFiles))
      ensures result.Failure? ==>
                && !dryRun
                && StuckIn(Effects(old(fs.rules), old(fs.archive), old(removedFiles)),
                           Removals(DuplicateGroups(listing, old(fs.rules)), old(fs.rules), now, EntryScore),
                           Effects(fs.rules, fs.archive, removedFiles))
    {
      var dir0 := fs.rules;
      var order, cores := ReadContents(listing, dir0);
      var groups := FindDuplicateGroups(order, cores, Jaccard);
      assert groups == DuplicateGroups(listing, dir0);
      var e;
      result, e := RemoveGroups(groups, Effects(fs.rules, fs.archive, removedFiles), dryRun, now, EntryScore);
      CommitRemovals(e);
    }

    /**
     * `archive_old_auto_learned`: the number of auto-learned files older than
     * 30 days. In a dry run nothing changes; otherwise each of them is moved
     * to the archive and recorded, and a file whose move fails is skipped and
     * not counted.
     */
    method ArchiveOldAutoLearned(listing: seq<string>, dryRun: bool, now: int) returns (count: nat)
      requires IsListing(listing, fs.rules)
      modifies this, fs
      ensures fs == old(fs) && fs.backup == old(fs.backup) && removedFiles == old(removedFiles)
      ensures Counters() == old(Counters())
      ensures dryRun ==> count == |Stale(listing, old(fs.rules), now)|
                         && fs.rules == old(fs.rules) && fs.archive == old(fs.archive)
                         && archivedFiles == old(archivedFiles)
      ensures !dryRun ==>
                var moved := Movable(Stale(listing, old(fs.rules), now), old(fs.rules));
                && count == |moved|
                && Effects(fs.rules, fs.archive, archivedFiles)
                   == AfterMoves(Effects(old(fs.rules), old(fs.archive), old(archivedFiles)), moved)
    {
      var e;
      count, e := ArchiveStale(listing, Effects(fs.rules, fs.archive, archivedFiles), dryRun, now);
      CommitMoves(e);
    }

    /**
     * The second half of `cleanup_all`, the duplicates `gone` of the listed
     * rules `dir0` being removed already (none in a dry run): archiving over
     * what the directory lists now, then the count of files after.
     */
    method ArchiveAndCount(listing: seq<string>, dryRun: bool, now: int, ghost dir0: Dir, removedCount: nat)
      requires IsListing(listing, dir0)
      requires removedCount == Excess(DuplicateGroups(listing, dir0))
      requires fs.rules == if dryRun then dir0 else WithoutFiles(dir0, Removals(DuplicateGroups(listing, dir0), dir0, now, EntryScore))
      modifies this, fs
      ensures fs == old(fs) && fs.backup == old(fs.backup)
      ensures totalRulesBefore == old(totalRulesBefore) && duplicatesRemoved == removedCount
      ensures removedFiles == old(removedFiles)
      ensures dryRun ==> fs.rules == old(fs.rules) && fs.archive == old(fs.archive) && archivedFiles == old(archivedFiles)
                         && totalRulesAfter == |listing|
                         && oldRulesArchived == |Stale(listing, old(fs.rules), now)|
      ensures !dryRun ==>
                var moved := Movable(Stale(Remaining(listing, old(fs.rules)), old(fs.rules), now), old(fs.rules));
                && oldRulesArchived == |moved|
                && Effects(fs.rules, fs.archive, archivedFiles)
                   == AfterMoves(Effects(old(fs.rules), old(fs.archive), old(archivedFiles)), moved)
                && |listing| == totalRulesAfter + removedCount + oldRulesArchived
    {
      duplicatesRemoved := removedCount;
      ghost var dir1 := fs.rules;
      var remaining := Remaining(listing, fs.rules);
      var archived := ArchiveOldAutoLearned(remaining, dryRun, now);
      oldRulesArchived := archived;
      totalRulesAfter := |Remaining(listing, fs.rules)|;
      if dryRun {
        RemainingListed(listing, dir0);
        RemainingAll(listing, dir0);
      } else {
        ghost var gone := Removals(DuplicateGroups(listing, dir0), dir0, now, EntryScore);
        DuplicateRemovalsDistinct(listing, dir0, now, EntryScore);
        RemovalsCount(DuplicateGroups(listing, dir0), dir0, now, EntryScore);
        ghost var moved := Movable(Stale(remaining, dir1, now), dir1);
        RemainingAfterTwo(listing, dir0, gone, moved);
      }
    }

    /**
     * `cleanup_all`: duplicate removal, then archiving over what the
     * directory lists afterwards, with the file counts before and after.
     * A failing duplicate removal aborts it. In a real run the directory
     * shrinks by exactly the removed and the archived files; in a dry run
     * it does not change.
     */
    method CleanupAll(listing: seq<string>, dryRun: bool, now: int) returns (result: Result<CleanupStats>)
      requires IsListing(listing, fs.rules)
      modifies this, fs
      ensures fs == old(fs) && fs.backup == old(fs.backup)
      ensures totalRulesBefore == |listing|
      ensures result.Success? ==> result.value == Stats()
      ensures result.Success? ==> duplicatesRemoved == Excess(DuplicateGroups(listing, old(fs.rules)))
      ensures result.Failure? ==> !dryRun
      ensures result.Failure? ==> archivedFiles == old(archivedFiles) && duplicatesRemoved == old(duplicatesRemoved)
                                  && oldRulesArchived == old(oldRulesArchived) && totalRulesAfter == old(totalRulesAfter)
      ensures dryRun ==> fs.rules == old(fs.rules) && fs.archive == old(fs.archive) && totalRulesAfter == totalRulesBefore
                         && removedFiles == old(removedFiles) && archivedFiles == old(archivedFiles)
                         && oldRulesArchived == |Stale(listing, old(fs.rules), now)|
      ensures !dryRun && result.Success? ==>
                var removal := AfterRemovals(Effects(old(fs.rules), old(fs.archive), old(removedFiles)),
                                             Removals(DuplicateGroups(listing, old(fs.rules)), old(fs.rules), now, EntryScore));
                var moved := Movable(Stale(Remaining(listing, removal.rules), removal.rules, now), removal.rules);
                && removedFiles == removal.record
                && Effects(fs.rules, fs.archive, archivedFiles)
                   == AfterMoves(Effects(removal.rules, removal.archive, old(archivedFiles)), moved)
                && oldRulesArchived == |moved|
                && totalRulesBefore == totalRulesAfter + duplicatesRemoved + oldRulesArchived
      ensures result.Failure? ==>
                StuckIn(Effects(old(fs.rules), old(fs.archive), old(removedFiles)),
                        Removals(DuplicateGroups(listing, old(fs.rules)), old(fs.rules), now, EntryScore),
                        Effects(fs.rules, fs.archive, removedFiles))
    {
      totalRulesBefore := |listing|;
      var dir0 := fs.rules;
      var removed := RemoveDuplicateRules(listing, dryRun, now);
      if removed.Failure? {
        return Failure(removed.error);
      }
      ArchiveAndCount(listing, dryRun, now, dir0, removed.value);
      result := Success(Stats());
    }
  }

  /** A removal of group `gi` that got stuck is stuck at a position of the whole removal list. */
  lemma StuckInRemovals(groups: seq<seq<string>>, start: Effects, now: int, score: Scorer, gi: nat,
                        gone: seq<string>, others: seq<string>, i: nat, e: Effects)
    requires forall k :: 0 <= k < |groups| ==> |groups[k]| >= 2 && Distinct(groups[k])
    requires gi < |groups| && gone + others == Removals(groups[..gi + 1], start.rules, now, score)
    requires i < |others| && StuckAs(start, gone + others[..i], others[i], e)
    ensures StuckIn(start, Removals(groups, start.rules, now, score), e)
  {
    var all := Removals(groups, start.rules, now, score);
    RemovalsPrefix(groups, start.rules, now, score, gi + 1);
    var p := |gone| + i;
    assert all[..p] == gone + others[..i];
    assert all[p] == others[i];
  }

  /** No file is removed twice. */
  lemma {:induction false} RemovalsDistinct(groups: seq<seq<string>>, dir: Dir, now: int, score: Scorer)
    requires forall k :: 0 <= k < |groups| ==> |groups[k]| > 0 && Distinct(groups[k])
    requires forall k1, k2, n :: 0 <= k1 < k2 < |groups| && n in groups[k1] ==> n !in groups[k2]
    ensures Distinct(Removals(groups, dir, now, score))
  {
    if |groups| > 0 {
      var init := groups[..|groups| - 1];
      var gi := |groups| - 1;
      RemovalsDistinct(init, dir, now, score);
      GroupUntouched(groups, dir, now, score, gi);
      var last := Without(groups[gi], Keeper(groups[gi], dir, now, score));
      assert groups[..gi] == init;
      DistinctConcat(Removals(init, dir, now, score), last);
    }
  }

  lemma DistinctConcat(a: seq<string>, b: seq<string>)
    requires Distinct(a) && Distinct(b) && forall n :: n in b ==> n !in a
    ensures Distinct(a + b)
  {
    forall i, j | 0 <= i < j < |a + b|
      ensures (a + b)[i] != (a + b)[j]
    {
      if i < |a| && j >= |a| {
        assert (a + b)[j] in b;
      }
    }
  }

  /** The duplicate removals are distinct files of the directory. */
  lemma DuplicateRemovalsDistinct(listing: seq<string>, dir: Dir, now: int, score: Scorer)
    requires IsListing(listing, dir)
    ensures Distinct(Removals(DuplicateGroups(listing, dir), dir, now, score))
    ensures forall n :: n in Removals(DuplicateGroups(listing, dir), dir, now, score) ==> n in dir
  {
    var groups := DuplicateGroups(listing, dir);
    RemovalsDistinct(groups, dir, now, score);
  }

  /** A sequence of distinct names has as many elements as its set. */
  lemma {:induction false} DistinctCard(s: seq<string>)
    requires Distinct(s)
    ensures |Elems(s)| == |s|
  {
    if |s| > 0 {
      var init := s[..|s| - 1];
      DistinctCard(init);
      assert Elems(s) == Elems(init) + {s[|s| - 1]};
    }
  }

  /** The names of a sequence, as a set. */
  function Elems(s: seq<string>): set<string> {
    set n | n in s
  }

  lemma ElemsRemaining(listing: seq<string>, dir: Dir, names: seq<string>)
    requires IsListing(listing, dir)
    ensures Elems(Remaining(listing, WithoutFiles(dir, names))) == Elems(listing) - Elems(names)
  {
  }

  lemma DifferenceCard(a: set<string>, b: set<string>)
    requires b <= a
    ensures |a - b| == |a| - |b|
  {
    assert a == (a - b) + b;
  }

  /** Removing distinct files of a listed directory shortens its listing by as many names. */
  lemma RemainingAfterRemoval(listing: seq<string>, dir: Dir, names: seq<string>)
    requires IsListing(listing, dir)
    requires Distinct(names) && forall n :: n in names ==> n in dir
    ensures |Remaining(listing, WithoutFiles(dir, names))| + |names| == |listing|
  {
    var r := Remaining(listing, WithoutFiles(dir, names));
    DistinctCard(r);
    DistinctCard(names);
    DistinctCard(listing);
    ElemsRemaining(listing, dir, names);
    DifferenceCard(Elems(listing), Elems(names));
  }

  /** Of a full listing, every name remains. */
  lemma RemainingListed(listing: seq<string>, dir: Dir)
    requires IsListing(listing, dir)
    ensures Remaining(listing, dir) == listing
  {
    RemainingInOrder(listing, dir);
    SelectAll(listing, n => n in dir);
  }

  lemma RemainingAll(listing: seq<string>, dir: Dir)
    requires IsListing(listing, dir)
    ensures |Remaining(listing, dir)| == |listing|
  {
    RemainingAfterRemoval(listing, dir, []);
    assert WithoutFiles(dir, []) == dir;
  }

  /** Listing the directory again after a second removal. */
  lemma {:induction false} RemainingTwice(listing: seq<string>, d2: Dir, d1: Dir)
    requires d2.Keys <= d1.Keys
    ensures Remaining(listing, d2) == Remaining(Remaining(listing, d1), d2)
  {
    if |listing| > 0 {
      var init := listing[..|listing| - 1];
      var last := listing[|listing| - 1];
      RemainingTwice(init, d2, d1);
      var r1 := Remaining(init, d1);
      if last in d1 {
        assert (r1 + [last])[..|r1|] == r1;
      }
    }
  }

  /**
   * Two removals, of `gone` and then of `moved`, from a listed directory:
   * each listed file either remains or is one of the removed files.
   */
  lemma RemainingAfterTwo(listing: seq<string>, dir0: Dir, gone: seq<string>, moved: seq<string>)
    requires IsListing(listing, dir0)
    requires Distinct(gone) && forall n :: n in gone ==> n in dir0
    requires Distinct(moved) && forall n :: n in moved ==> n in WithoutFiles(dir0, gone)
    ensures |listing| == |Remaining(listing, WithoutFiles(WithoutFiles(dir0, gone), moved))| + |gone| + |moved|
  {
    var dir1 := WithoutFiles(dir0, gone);
    RemainingAfterRemoval(listing, dir0, gone);
    var remaining := Remaining(listing, dir1);
    RemainingAfterRemoval(remaining, dir1, moved);
    RemainingTwice(listing, WithoutFiles(dir1, moved), dir1);
  }

  lemma StaleStep(listing: seq<string>, dir: Dir, now: int, i: nat)
    requires i < |listing| && forall n :: n in listing ==> n in dir
    ensures forall n :: n in listing[..i] ==> n in dir
    ensures Stale(listing[..i + 1], dir, now)
            == Stale(listing[..i], dir, now)
               + if AutoLearned(listing[i]) && OlderThan(dir[listing[i]].mtime, now, MaxAutoLearnedAgeDays)
                 then [listing[i]] else []
  {
    assert listing[..i + 1][..i] == listing[..i];
  }

  lemma MovableStep(names: seq<string>, name: string, dir: Dir)
    requires name in dir && forall n :: n in names ==> n in dir
    ensures Movable(names + [name], dir) == Movable(names, dir) + if dir[name].writable then [name] else []
  {
    assert (names + [name])[..|names|] == names;
  }

  /** A file not yet removed keeps its entry. */
  lemma StillPresent(dir: Dir, gone: seq<string>, name: string)
    requires name in dir && name !in gone
    ensures name in WithoutFiles(dir, gone) && WithoutFiles(dir, gone)[name] == dir[name]
  {
  }

  /** The files of a group none of which was removed keep their entries. */
  lemma StillPresentAll(dir: Dir, gone: seq<string>, group: seq<string>)
    requires forall n :: n in gone ==> n !in group
    ensures forall x :: x in group ==> (x in WithoutFiles(dir, gone) <==> x in dir)
                                       && (x in dir ==> WithoutFiles(dir, gone)[x] == dir[x])
  {
  }

  lemma NotYetMoved(listing: seq<string>, i: nat, moved: seq<string>)
    requires i < |listing| && Distinct(listing)
    requires forall n :: n in moved ==> n in listing[..i]
    ensures listing[i] !in moved
  {
  }

  lemma StepMoved(moved: seq<string>, name: string, start: Effects)
    requires forall n :: n in moved ==> n in start.rules
    requires name in start.rules
    ensures AfterMoves(start, moved + [name])
            == var e := AfterMoves(start, moved);
               Effects(e.rules - {name}, e.archive[name := start.rules[name]], e.record + [RulesDirPath + name])
  {
    assert (moved + [name])[..|moved|] == moved;
    assert Paths(moved + [name]) == Paths(moved) + [RulesDirPath + name];
    assert start.record + Paths(moved + [name]) == start.record + Paths(moved) + [RulesDirPath + name];
  }

  /** The next file to remove is still in the directory: it belongs to the current group and was not removed before. */
  lemma NextGone(prev: seq<string>, others: seq<string>, oi: nat)
    requires oi < |others|
    ensures prev + others[..oi] + [others[oi]] == prev + others[..oi + 1]
  {
    assert others[..oi + 1] == others[..oi] + [others[oi]];
  }

  lemma NextStillPresent(others: seq<string>, oi: nat, prev: seq<string>, dir: Dir)
    requires oi < |others| && Distinct(others)
    requires forall n :: n in others ==> n in dir && n !in prev
    ensures others[oi] in dir && others[oi] !in prev + others[..oi]
  {
  }

  lemma StepGone(gone: seq<string>, name: string, start: Effects)
    requires forall n :: n in gone ==> n in start.rules
    requires name in start.rules
    ensures AfterRemovals(start, gone + [name])
            == var e := AfterRemovals(start, gone);
               Effects(e.rules - {name}, e.archive[DuplicatePrefix + name := start.rules[name]], e.record + [RulesDirPath + name])
  {
    assert (gone + [name])[..|gone|] == gone;
    assert Paths(gone + [name]) == Paths(gone) + [RulesDirPath + name];
    assert start.record + Paths(gone + [name]) == start.record + Paths(gone) + [RulesDirPath + name];
  }
}
