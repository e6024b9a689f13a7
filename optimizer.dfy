/**
 * The rule optimizer: a snapshot of the rule directory, the priority
 * adjustment that turns every `priority: 0` of a file outside a keep list
 * into `priority: 1`, and the change of always-applied rules into
 * intelligent or file-specific ones, at most a given number per run.  In a
 * dry run nothing is written but every file that would change is reported.
 */
module Optimizer {
  import opened Wrappers
  import opened Text
  import opened Files
  import opened Patterns

  // ---------------------------------------------------------------------
  // Rewriting files
  // ---------------------------------------------------------------------

  /** `dir` with the contents of the readable files `names` replaced by `f` of their text. */
  function Rewritten(dir: Dir, names: seq<string>, f: string -> string): (r: Dir)
    ensures forall n :: n in r <==> n in dir
    ensures forall n :: n in dir && n !in names ==> r[n] == dir[n]
  {
    map n | n in dir ::
      if n in names && dir[n].content.Contents? then dir[n].(content := Contents(f(dir[n].content.text))) else dir[n]
  }

  /** Rewriting one more file changes that file's entry only. */
  lemma RewrittenStep(dir: Dir, names: seq<string>, f: string -> string, name: string)
    requires name in dir && name !in names && dir[name].content.Contents?
    ensures Rewritten(dir, names + [name], f)
            == Rewritten(dir, names, f)[name := dir[name].(content := Contents(f(dir[name].content.text)))]
  {
  }

  // ---------------------------------------------------------------------
  // backup_rules
  // ---------------------------------------------------------------------

  /** The copy loop of `backup_rules`: every listed file is copied, contents and times alike. */
  method CopyAll(listing: seq<string>, dir: Dir) returns (backup: Dir)
    requires IsListing(listing, dir)
    ensures backup == dir
  {
    backup := map[];
    for i := 0 to |listing|
      invariant forall n :: n in backup <==> n in listing[..i]
      invariant forall n :: n in backup ==> n in dir && backup[n] == dir[n]
    {
      assert forall n :: n in listing[..i + 1] <==> n in listing[..i] || n == listing[i];
      backup := backup[listing[i] := dir[listing[i]]];
    }
    assert listing[..|listing|] == listing;
  }

  /** `backup_rules`: the backup directory becomes a snapshot of the rules. */
  method BackupRules(fs: FileSystem, listing: seq<string>)
    requires IsListing(listing, fs.rules)
    modifies fs
    ensures fs.backup == fs.rules == old(fs.rules) && fs.archive == old(fs.archive)
  {
    fs.backup := CopyAll(listing, fs.rules);
  }

  // ---------------------------------------------------------------------
  // adjust_priority_0_to_1
  // ---------------------------------------------------------------------

  /** The files whose priority 0 is kept. */
  const KeepAtPriorityZero: seq<string> := [
    "f-drive-absolute-independence.mdc",
    "rules-priority-enforcement.mdc",
    "CRITICAL-AUTO-EXECUTION.mdc",
    "mcp-auto-execution-enforcement.mdc",
    "layer0-autonomous-brain.mdc",
    "company-environment-mcp-mandatory.mdc",
    "subprocess-env-variable-rule.mdc",
    "ssh-key-hpanel-priority.mdc",
    "korean-medicine-verification-required.mdc",
    "date-validation-mandatory.mdc"
  ]

  /** `re.sub(r'priority:\s*0', 'priority: 1', text)`. */
  function PriorityAdjusted(text: string): string {
    SubAll(PriorityZero, Literal(PriorityOne), text)
  }

  /** A file the adjustment reports: outside the keep list, readable, with a `priority:\s*0`, and written unless dry. */
  predicate Adjustable(name: string, entry: FileEntry, dryRun: bool) {
    && name !in KeepAtPriorityZero
    && entry.content.Contents?
    && HasMatch(PriorityZero, entry.content.text)
    && (dryRun || entry.writable)
  }

  /** What `adjust_priority_0_to_1` returns, in listing order. */
  function PriorityTargets(listing: seq<string>, dir: Dir, dryRun: bool): (r: seq<string>)
    requires forall n :: n in listing ==> n in dir
    ensures forall n :: n in r <==> n in listing && Adjustable(n, dir[n], dryRun)
    ensures Distinct(listing) ==> Distinct(r)
  {
    if |listing| == 0 then []
    else
      var init := listing[..|listing| - 1];
      var last := listing[|listing| - 1];
      assert forall n :: n in listing <==> n in init || n == last;
      assert forall i :: 0 <= i < |init| ==> init[i] == listing[i];
      PriorityTargets(init, dir, dryRun) + if Adjustable(last, dir[last], dryRun) then [last] else []
  }

  /** The adjusted files come in listing order. */
  lemma {:induction false} PriorityTargetsInOrder(listing: seq<string>, dir: Dir, dryRun: bool)
    requires forall n :: n in listing ==> n in dir
    ensures PriorityTargets(listing, dir, dryRun) == Select(listing, n => n in dir && Adjustable(n, dir[n], dryRun))
  {
    if |listing| > 0 {
      PriorityTargetsInOrder(listing[..|listing| - 1], dir, dryRun);
    }
  }

  /** The rules after `adjust_priority_0_to_1`. */
  function PriorityAdjustedRules(listing: seq<string>, dir: Dir, dryRun: bool): Dir
    requires forall n :: n in listing ==> n in dir
  {
    if dryRun then dir else Rewritten(dir, PriorityTargets(listing, dir, dryRun), PriorityAdjusted)
  }

  /**
   * The adjustment changes a text exactly when it has a `priority:\s*0`:
   * then the result has none left and has a `priority: 1`; otherwise the
   * text is left as it is.
   */
  lemma PriorityAdjustedEffect(text: string)
    ensures !HasMatch(PriorityZero, PriorityAdjusted(text))
    ensures HasMatch(PriorityZero, text) ==> Contains(PriorityAdjusted(text), PriorityOne) && PriorityAdjusted(text) != text
    ensures !HasMatch(PriorityZero, text) ==> PriorityAdjusted(text) == text
  {
    PriorityOneIsSafe();
    SubAllRemovesMatches(PriorityZero, PriorityOne, text);
    if HasMatch(PriorityZero, text) {
      SubAllInserts(PriorityZero, Literal(PriorityOne), text);
    } else {
      SubAllNoMatch(PriorityZero, Literal(PriorityOne), text);
    }
  }

  /**
   * After the adjustment a kept file is as it was; a reported file had a
   * `priority:\s*0` and, unless this is a dry run, has none left; every
   * other file is as it was.
   */
  lemma PriorityAdjustmentSound(listing: seq<string>, dir: Dir, dryRun: bool, n: string)
    requires IsListing(listing, dir)
    requires n in dir
    ensures n in KeepAtPriorityZero ==> n !in PriorityTargets(listing, dir, dryRun)
    ensures n in PriorityTargets(listing, dir, dryRun) ==> dir[n].content.Contents? && HasMatch(PriorityZero, dir[n].content.text)
    ensures (dir[n].content.Contents? && HasMatch(PriorityZero, dir[n].content.text) && n !in KeepAtPriorityZero
             && (dryRun || dir[n].writable)) ==> n in PriorityTargets(listing, dir, dryRun)
    ensures var after := PriorityAdjustedRules(listing, dir, dryRun);
            n in after
            && (n !in PriorityTargets(listing, dir, dryRun) || dryRun ==> after[n] == dir[n])
            && (n in PriorityTargets(listing, dir, dryRun) && !dryRun ==>
                  after[n].content.Contents? && !HasMatch(PriorityZero, after[n].content.text))
  {
    if dir[n].content.Contents? {
      PriorityAdjustedEffect(dir[n].content.text);
    }
  }

  lemma PriorityTargetsStep(listing: seq<string>, dir: Dir, dryRun: bool, i: nat)
    requires forall n :: n in listing ==> n in dir
    requires i < |listing|
    ensures forall n :: n in listing[..i] ==> n in dir
    ensures PriorityTargets(listing[..i + 1], dir, dryRun)
            == PriorityTargets(listing[..i], dir, dryRun) + if Adjustable(listing[i], dir[listing[i]], dryRun) then [listing[i]] else []
  {
    assert listing[..i + 1][..i] == listing[..i];
  }

  /**
   * The loop of `adjust_priority_0_to_1` over the rules `dir0`: skips the
   * kept files and the unreadable ones, rewrites every `priority:\s*0` of
   * the others into `priority: 1` unless this is a dry run, and reports
   * each file it changed; a file whose write fails is not reported.
   */
  method AdjustPriorities(listing: seq<string>, dir0: Dir, dryRun: bool) returns (changed: seq<string>, rules: Dir)
    requires IsListing(listing, dir0)
    ensures changed == PriorityTargets(listing, dir0, dryRun)
    ensures rules == PriorityAdjustedRules(listing, dir0, dryRun)
  {
    changed := [];
    rules := dir0;
    for i := 0 to |listing|
      invariant changed == PriorityTargets(listing[..i], dir0, dryRun)
      invariant forall n :: n in changed ==> n in listing[..i]
      invariant rules == if dryRun then dir0 else Rewritten(dir0, changed, PriorityAdjusted)
    {
      var name := listing[i];
      PriorityTargetsStep(listing, dir0, dryRun, i);
      if name in KeepAtPriorityZero {
        continue;
      }
      assert name !in changed;
      var entry := rules[name];
      match entry.content {
        case ReadError(_) =>
          // the read raised: the file is skipped
        case Contents(text) =>
          if HasMatch(PriorityZero, text) {
            var newText := SubAll(PriorityZero, Literal(PriorityOne), text);
            if !dryRun {
              if !entry.writable {
                // the write raised before the file was reported
                continue;
              }
              RewrittenStep(dir0, changed, PriorityAdjusted, name);
              rules := rules[name := entry.(content := Contents(newText))];
            }
            changed := changed + [name];
          }
      }
    }
    assert listing[..|listing|] == listing;
  }

  // ---------------------------------------------------------------------
  // change_always_apply_to_intelligent
  // ---------------------------------------------------------------------

  /** The always-applied rules that stay so: eight at priority 0, then eight at priority 1. */
  const KeepAlwaysApply: seq<string> := [
    "company-environment-mcp-mandatory.mdc",
    "CRITICAL-AUTO-EXECUTION.mdc",
    "date-validation-mandatory.mdc",
    "f-drive-absolute-independence.mdc",
    "layer0-autonomous-brain.mdc",
    "rules-priority-enforcement.mdc",
    "ssh-key-hpanel-priority.mdc",
    "subprocess-env-variable-rule.mdc",
    "athena-emergency-recovery-enhanced.mdc",
    "auto-memory-fusion.mdc",
    "auto-reflection-system.mdc",
    "mkm12-mandatory-application.mdc",
    "optimal-condition-enhancement.mdc",
    "memory-search-enhancement.mdc",
    "sqlite-auto-utilization.mdc",
    "metacognition-realistic.mdc"
  ]

  /** The priority reported when a rule states none. */
  const UnstatedPriority: nat := 5
  /** The cap the optimizer's entry point passes. */
  const MaxChangesPerRun: int := 20

  /** One reported change: the file, its new type and its priority. */
  datatype IntelligentChange = IntelligentChange(name: string, ruleType: string, priority: nat)

  /** The new type: file-specific when the rule has a glob list, intelligent otherwise. */
  function TargetType(text: string): string {
    if HasMatch(GlobsList, text) then "file-specific" else "intelligent"
  }

  /** The first `priority:\s*(\d+)` value, or 5. */
  function ReportedPriority(text: string): nat {
    match FirstPriority(text)
    case Some(p) => p
    case None => UnstatedPriority
  }

  /** The `type:` line written for the type `t`. */
  function TypeLine(t: string): string {
    "type: \"" + t + "\""
  }

  /** Every `alwaysApply:\s*true`, in any case, turned into `alwaysApply: false`. */
  function TurnedOff(text: string): string {
    SubAll(AlwaysApplyTrue, Literal(AlwaysApplyFalseText), text)
  }

  /**
   * The new content: always-apply turned off, then a `type:` line added after
   * every `alwaysApply: false` when the original had no `type:`, or every
   * quoted `type:` value replaced when it had one.
   */
  function Rewrite(text: string): string {
    var t := TargetType(text);
    var off := TurnedOff(text);
    if !Contains(text, "type:") then SubAll(AlwaysApplyFalse, AppendToMatch("\n" + TypeLine(t)), off)
    else SubAll(QuotedType, Literal(TypeLine(t)), off)
  }

  /** `max_changes` is truthy and the number of changes has reached it. */
  predicate Capped(maxChanges: Option<int>, count: nat) {
    maxChanges.Some? && maxChanges.value != 0 && count >= maxChanges.value
  }

  /** The change a file outside the keep list undergoes, if it is a readable always-applied rule written unless dry. */
  function ChangeOf(name: string, entry: FileEntry, dryRun: bool): (r: Option<IntelligentChange>)
    ensures r.Some? ==> r.value.name == name
  {
    match entry.content
    case ReadError(_) => None
    case Contents(text) =>
      if HasMatch(AlwaysApplyTrue, text) && (dryRun || entry.writable)
      then Some(IntelligentChange(name, TargetType(text), ReportedPriority(text)))
      else None
  }

  /** What `change_always_apply_to_intelligent` returns, in listing order. */
  function Changes(listing: seq<string>, dir: Dir, dryRun: bool, maxChanges: Option<int>, keep: seq<string>): (r: seq<IntelligentChange>)
    requires forall n :: n in listing ==> n in dir
    ensures |r| <= |listing|
  {
    if |listing| == 0 then []
    else
      var last := listing[|listing| - 1];
      assert last in listing;
      var prev := Changes(listing[..|listing| - 1], dir, dryRun, maxChanges, keep);
      if last in keep || Capped(maxChanges, |prev|) then prev
      else
        match ChangeOf(last, dir[last], dryRun)
        case Some(c) => prev + [c]
        case None => prev
  }

  /** The names of the changed files. */
  function ChangedNames(cs: seq<IntelligentChange>): (r: seq<string>)
    ensures |r| == |cs| && forall k :: 0 <= k < |cs| ==> r[k] == cs[k].name
  {
    seq(|cs|, k requires 0 <= k < |cs| => cs[k].name)
  }

  /** The change a visited file adds to the report. */
  function Added(o: Option<IntelligentChange>): seq<IntelligentChange> {
    match o
    case Some(c) => [c]
    case None => []
  }

  /** The rules after `change_always_apply_to_intelligent`. */
  function IntelligentRules(listing: seq<string>, dir: Dir, dryRun: bool, maxChanges: Option<int>, keep: seq<string>): Dir
    requires forall n :: n in listing ==> n in dir
  {
    if dryRun then dir else Rewritten(dir, ChangedNames(Changes(listing, dir, dryRun, maxChanges, keep)), Rewrite)
  }

  /**
   * Every reported change is of a listed file outside the keep list, readable,
   * always-applied and written unless dry, with the type and priority its text
   * calls for.
   */
  lemma {:induction false} ChangesSound(listing: seq<string>, dir: Dir, dryRun: bool, maxChanges: Option<int>, keep: seq<string>, c: IntelligentChange)
    requires forall n :: n in listing ==> n in dir
    ensures c in Changes(listing, dir, dryRun, maxChanges, keep) ==>
              && c.name in listing && c.name !in keep
              && dir[c.name].content.Contents? && HasMatch(AlwaysApplyTrue, dir[c.name].content.text)
              && (dryRun || dir[c.name].writable)
              && c.ruleType == TargetType(dir[c.name].content.text)
              && c.priority == ReportedPriority(dir[c.name].content.text)
  {
    if |listing| > 0 {
      var init := listing[..|listing| - 1];
      assert forall n :: n in init ==> n in listing;
      ChangesSound(init, dir, dryRun, maxChanges, keep, c);
    }
  }

  /** Without a cap, exactly the files `ChangesSound` describes are changed. */
  lemma {:induction false} ChangesUncapped(listing: seq<string>, dir: Dir, dryRun: bool, maxChanges: Option<int>, keep: seq<string>, c: IntelligentChange)
    requires forall n :: n in listing ==> n in dir
    requires maxChanges.None? || maxChanges.value == 0
    ensures c in Changes(listing, dir, dryRun, maxChanges, keep) <==>
              && c.name in listing && c.name !in keep
              && dir[c.name].content.Contents? && HasMatch(AlwaysApplyTrue, dir[c.name].content.text)
              && (dryRun || dir[c.name].writable)
              && c.ruleType == TargetType(dir[c.name].content.text)
              && c.priority == ReportedPriority(dir[c.name].content.text)
  {
    if |listing| > 0 {
      var init := listing[..|listing| - 1];
      assert forall n :: n in listing <==> n in init || n == listing[|listing| - 1];
      ChangesUncapped(init, dir, dryRun, maxChanges, keep, c);
    }
  }

  /** A positive cap bounds the number of changes; a negative one allows none. */
  lemma {:induction false} ChangesCapped(listing: seq<string>, dir: Dir, dryRun: bool, maxChanges: Option<int>, keep: seq<string>)
    requires forall n :: n in listing ==> n in dir
    ensures maxChanges.Some? && maxChanges.value > 0 ==> |Changes(listing, dir, dryRun, maxChanges, keep)| <= maxChanges.value
    ensures maxChanges.Some? && maxChanges.value < 0 ==> Changes(listing, dir, dryRun, maxChanges, keep) == []
  {
    if |listing| > 0 {
      var init := listing[..|listing| - 1];
      assert forall n :: n in init ==> n in listing;
      ChangesCapped(init, dir, dryRun, maxChanges, keep);
    }
  }

  /**
   * A positive cap keeps the first changes of the uncapped sweep, as many as
   * the cap allows: the cap truncates the report and changes nothing else.
   */
  lemma {:induction false} ChangesCapPrefix(listing: seq<string>, dir: Dir, dryRun: bool, cap: int, keep: seq<string>)
    requires forall n :: n in listing ==> n in dir
    requires cap > 0
    ensures var all := Changes(listing, dir, dryRun, None, keep);
            Changes(listing, dir, dryRun, Some(cap), keep) == all[..if |all| < cap then |all| else cap]
  {
    if |listing| > 0 {
      var init := listing[..|listing| - 1];
      var last := listing[|listing| - 1];
      assert forall n :: n in init ==> n in listing;
      ChangesCapPrefix(init, dir, dryRun, cap, keep);
      var all := Changes(init, dir, dryRun, None, keep);
      var capped := Changes(init, dir, dryRun, Some(cap), keep);
      var all' := Changes(listing, dir, dryRun, None, keep);
      if last in keep {
        assert all' == all;
      } else if Capped(Some(cap), |capped|) {
        assert all' == all + Added(ChangeOf(last, dir[last], dryRun));
        assert all'[..cap] == all[..cap];
      } else {
        assert capped == all;
        assert all' == all + Added(ChangeOf(last, dir[last], dryRun));
        assert Changes(listing, dir, dryRun, Some(cap), keep) == all';
      }
    }
  }

  /** Each file is changed at most once: the report names no file twice. */
  lemma {:induction false} ChangesOncePerFile(listing: seq<string>, dir: Dir, dryRun: bool, maxChanges: Option<int>, keep: seq<string>)
    requires forall n :: n in listing ==> n in dir
    requires Distinct(listing)
    ensures Distinct(ChangedNames(Changes(listing, dir, dryRun, maxChanges, keep)))
  {
    if |listing| > 0 {
      var init := listing[..|listing| - 1];
      var last := listing[|listing| - 1];
      assert forall n :: n in init ==> n in listing;
      ChangesOncePerFile(init, dir, dryRun, maxChanges, keep);
      var prev := Changes(init, dir, dryRun, maxChanges, keep);
      var o := ChangeOf(last, dir[last], dryRun);
      if last !in keep && !Capped(maxChanges, |prev|) && o.Some? {
        assert last !in init by {
          assert forall j :: 0 <= j < |init| ==> init[j] == listing[j];
        }
        UnlistedUnchanged(init, dir, dryRun, maxChanges, keep, last);
        ChangedNamesAppend(prev, o.value);
      }
    }
  }

  /** A file that is not listed is not changed. */
  lemma UnlistedUnchanged(listing: seq<string>, dir: Dir, dryRun: bool, maxChanges: Option<int>, keep: seq<string>, name: string)
    requires forall n :: n in listing ==> n in dir
    requires name !in listing
    ensures name !in ChangedNames(Changes(listing, dir, dryRun, maxChanges, keep))
  {
    var cs := Changes(listing, dir, dryRun, maxChanges, keep);
    forall k | 0 <= k < |cs|
      ensures cs[k].name != name
    {
      ChangesSound(listing, dir, dryRun, maxChanges, keep, cs[k]);
    }
  }

  /** A kept file, or any file once the cap is reached, adds no change. */
  lemma ChangesSkip(listing: seq<string>, dir: Dir, dryRun: bool, maxChanges: Option<int>, keep: seq<string>, i: nat)
    requires forall n :: n in listing ==> n in dir
    requires i < |listing|
    requires listing[i] in keep || Capped(maxChanges, |Changes(listing[..i], dir, dryRun, maxChanges, keep)|)
    ensures Changes(listing[..i + 1], dir, dryRun, maxChanges, keep) == Changes(listing[..i], dir, dryRun, maxChanges, keep)
  {
    assert listing[..i + 1][..i] == listing[..i];
  }

  /** Any other file adds its change, if it has one. */
  lemma ChangesVisit(listing: seq<string>, dir: Dir, dryRun: bool, maxChanges: Option<int>, keep: seq<string>, i: nat)
    requires forall n :: n in listing ==> n in dir
    requires i < |listing|
    requires listing[i] !in keep && !Capped(maxChanges, |Changes(listing[..i], dir, dryRun, maxChanges, keep)|)
    ensures Changes(listing[..i + 1], dir, dryRun, maxChanges, keep)
            == Changes(listing[..i], dir, dryRun, maxChanges, keep) + Added(ChangeOf(listing[i], dir[listing[i]], dryRun))
  {
    assert listing[..i + 1][..i] == listing[..i];
  }

  /** The next listed file has not been changed yet. */
  lemma NotYetChanged(listing: seq<string>, dir: Dir, dryRun: bool, maxChanges: Option<int>, keep: seq<string>, i: nat)
    requires IsListing(listing, dir) && i < |listing|
    ensures forall n :: n in listing[..i] ==> n in dir
    ensures listing[i] !in ChangedNames(Changes(listing[..i], dir, dryRun, maxChanges, keep))
  {
    var cs := Changes(listing[..i], dir, dryRun, maxChanges, keep);
    if listing[i] in ChangedNames(cs) {
      var k :| 0 <= k < |cs| && ChangedNames(cs)[k] == listing[i];
      ChangesSound(listing[..i], dir, dryRun, maxChanges, keep, cs[k]);
      assert false;
    }
  }

  /** Reporting one more change names one more file. */
  lemma ChangedNamesAppend(cs: seq<IntelligentChange>, c: IntelligentChange)
    ensures ChangedNames(cs + [c]) == ChangedNames(cs) + [c.name]
  {
    assert forall k :: 0 <= k < |cs| ==> (cs + [c])[k] == cs[k];
  }

  /** Once the cap is reached, the later files change nothing: the sweep may stop there. */
  lemma {:induction false} CappedStays(listing: seq<string>, dir: Dir, dryRun: bool, maxChanges: Option<int>, keep: seq<string>, i: nat)
    requires forall n :: n in listing ==> n in dir
    requires i <= |listing|
    requires Capped(maxChanges, |Changes(listing[..i], dir, dryRun, maxChanges, keep)|)
    ensures Changes(listing, dir, dryRun, maxChanges, keep) == Changes(listing[..i], dir, dryRun, maxChanges, keep)
    decreases |listing| - i
  {
    if i < |listing| {
      ChangesSkip(listing, dir, dryRun, maxChanges, keep, i);
      CappedStays(listing, dir, dryRun, maxChanges, keep, i + 1);
    } else {
      assert listing[..i] == listing;
    }
  }

  /**
   * The body of the always-apply loop for a file `name` outside the keep
   * list, before the cap: an always-applied rule is reported and, unless
   * this is a dry run, rewritten; a failed read or write skips the file.
   */
  method ConvertFile(dir0: Dir, name: string, dryRun: bool, changed: seq<IntelligentChange>, rules: Dir)
    returns (changed': seq<IntelligentChange>, rules': Dir)
    requires name in dir0 && name !in ChangedNames(changed)
    requires rules == if dryRun then dir0 else Rewritten(dir0, ChangedNames(changed), Rewrite)
    ensures changed' == changed + Added(ChangeOf(name, dir0[name], dryRun))
    ensures rules' == if dryRun then dir0 else Rewritten(dir0, ChangedNames(changed'), Rewrite)
  {
    changed', rules' := changed, rules;
    var entry := rules[name];
    match entry.content {
      case ReadError(_) =>
      case Contents(text) =>
        if HasMatch(AlwaysApplyTrue, text) && (dryRun || entry.writable) {
          var c := IntelligentChange(name, TargetType(text), ReportedPriority(text));
          ChangedNamesAppend(changed, c);
          if !dryRun {
            RewrittenStep(dir0, ChangedNames(changed), Rewrite, name);
            rules' := rules[name := entry.(content := Contents(Rewrite(text)))];
          }
          changed' := changed + [c];
        }
    }
  }

  /** What the state of the always-apply loop is after its first `i` files. */
  ghost predicate SweepState(listing: seq<string>, dir0: Dir, dryRun: bool, maxChanges: Option<int>, keep: seq<string>, i: nat,
                             changed: seq<IntelligentChange>, rules: Dir)
    requires IsListing(listing, dir0) && i <= |listing|
  {
    && changed == Changes(listing[..i], dir0, dryRun, maxChanges, keep)
    && rules == if dryRun then dir0 else Rewritten(dir0, ChangedNames(changed), Rewrite)
  }

  /** Before the first file the loop has changed nothing. */
  lemma SweepStart(listing: seq<string>, dir0: Dir, dryRun: bool, maxChanges: Option<int>, keep: seq<string>)
    requires IsListing(listing, dir0)
    ensures SweepState(listing, dir0, dryRun, maxChanges, keep, 0, [], dir0)
  {
    assert Rewritten(dir0, ChangedNames([]), Rewrite) == dir0;
  }

  /** One turn of the always-apply loop, on a file it does not stop at. */
  method SweepStep(listing: seq<string>, dir0: Dir, dryRun: bool, maxChanges: Option<int>, keep: seq<string>, i: nat,
                   changed: seq<IntelligentChange>, rules: Dir)
    returns (changed': seq<IntelligentChange>, rules': Dir)
    requires IsListing(listing, dir0) && i < |listing|
    requires SweepState(listing, dir0, dryRun, maxChanges, keep, i, changed, rules)
    requires listing[i] in keep || !Capped(maxChanges, |changed|)
    ensures SweepState(listing, dir0, dryRun, maxChanges, keep, i + 1, changed', rules')
  {
    var name := listing[i];
    NotYetChanged(listing, dir0, dryRun, maxChanges, keep, i);
    if name in keep {
      ChangesSkip(listing, dir0, dryRun, maxChanges, keep, i);
      changed', rules' := changed, rules;
    } else {
      ChangesVisit(listing, dir0, dryRun, maxChanges, keep, i);
      changed', rules' := ConvertFile(dir0, name, dryRun, changed, rules);
    }
  }

  /**
   * The loop of `change_always_apply_to_intelligent` up to where it stops:
   * at the end of the listing, or at a file outside the keep list once the
   * cap is reached.
   */
  method SweepAlwaysApply(listing: seq<string>, dir0: Dir, dryRun: bool, maxChanges: Option<int>, keep: seq<string>)
    returns (changed: seq<IntelligentChange>, rules: Dir, i: nat)
    requires IsListing(listing, dir0)
    ensures i <= |listing| && SweepState(listing, dir0, dryRun, maxChanges, keep, i, changed, rules)
    ensures i < |listing| ==> Capped(maxChanges, |changed|)
  {
    changed := [];
    rules := dir0;
    i := 0;
    SweepStart(listing, dir0, dryRun, maxChanges, keep);
    // the loop stops at a file outside the keep list once the cap is reached
    while i < |listing| && (listing[i] in keep || !Capped(maxChanges, |changed|))
      invariant i <= |listing|
      invariant SweepState(listing, dir0, dryRun, maxChanges, keep, i, changed, rules)
    {
      changed, rules := SweepStep(listing, dir0, dryRun, maxChanges, keep, i, changed, rules);
      i := i + 1;
    }
  }

  /**
   * `change_always_apply_to_intelligent` over the rules `dir0`: skips the
   * kept files, stops once `maxChanges` (when truthy) changes are reported,
   * skips the unreadable files, and turns every always-applied rule into an
   * intelligent or file-specific one, writing it unless this is a dry run;
   * a file whose write fails is not reported.
   */
  method ChangeAlwaysApply(listing: seq<string>, dir0: Dir, dryRun: bool, maxChanges: Option<int>, keep: seq<string>)
    returns (changed: seq<IntelligentChange>, rules: Dir)
    requires IsListing(listing, dir0)
    ensures changed == Changes(listing, dir0, dryRun, maxChanges, keep)
    ensures rules == IntelligentRules(listing, dir0, dryRun, maxChanges, keep)
  {
    var i;
    changed, rules, i := SweepAlwaysApply(listing, dir0, dryRun, maxChanges, keep);
    if i < |listing| {
      CappedStays(listing, dir0, dryRun, maxChanges, keep, i);
    } else {
      assert listing[..i] == listing;
    }
  }

  // ---------------------------------------------------------------------
  // What the rewrite does to a text
  // ---------------------------------------------------------------------

  /** `alwaysApply: false` followed by anything is a match of `alwaysApply:\s*false`. */
  lemma FalseTextMatches(t: string)
    ensures Matches(AlwaysApplyFalse, AlwaysApplyFalseText + t)
  {
    var x := AlwaysApplyFalseText + t;
    assert x[..12] == "alwaysApply:";
    assert x[12..][0] == ' ' && x[12..][1] == 'f';
    assert RunLength(x[12..], IsSpace) == 1 by {
      assert x[12..][1..][0] == 'f';
    }
    assert x[13..][..5] == "false";
  }

  /** A match at position `j` is found by `re.search`. */
  lemma {:induction false} HasMatchAt(p: Pattern, s: string, j: nat)
    requires j <= |s| && Matches(p, s[j..])
    ensures HasMatch(p, s)
    decreases j
  {
    if j == 0 {
      assert s[0..] == s;
    } else {
      assert s[1..][j - 1..] == s[j..];
      HasMatchAt(p, s[1..], j - 1);
    }
  }

  /**
   * Turning always-apply off leaves no `alwaysApply:\s*true`, in any case,
   * and puts `alwaysApply: false` in the text.
   */
  lemma TurnedOffEffect(text: string)
    requires HasMatch(AlwaysApplyTrue, text)
    ensures !HasMatch(AlwaysApplyTrue, TurnedOff(text))
    ensures Contains(TurnedOff(text), AlwaysApplyFalseText)
  {
    AlwaysApplyFalseIsSafe();
    SubAllRemovesMatches(AlwaysApplyTrue, AlwaysApplyFalseText, text);
    SubAllInserts(AlwaysApplyTrue, Literal(AlwaysApplyFalseText), text);
  }

  /** A text holding `alwaysApply: false` has a match of `alwaysApply:\s*false`. */
  lemma FalseTextFound(off: string)
    requires Contains(off, AlwaysApplyFalseText)
    ensures HasMatch(AlwaysApplyFalse, off)
  {
    var j :| OccursAt(off, AlwaysApplyFalseText, j);
    assert off[j..] == AlwaysApplyFalseText + off[j + |AlwaysApplyFalseText|..];
    FalseTextMatches(off[j + |AlwaysApplyFalseText|..]);
    HasMatchAt(AlwaysApplyFalse, off, j);
  }

  /**
   * Adding a line after `alwaysApply: false`: the text up to the end of the
   * first `alwaysApply:\s*false` match is kept, the line follows that match
   * at once, and the substitution goes on after it.
   */
  lemma TypeLineInserted(off: string, line: string) returns (i: nat, len: nat)
    requires Contains(off, AlwaysApplyFalseText)
    ensures Find(AlwaysApplyFalse, off) == Some(i) && MatchLen(AlwaysApplyFalse, off[i..]) == Some(len)
    ensures i + len <= |off|
    ensures SubAll(AlwaysApplyFalse, AppendToMatch(line), off)
            == off[..i + len] + line + SubAll(AlwaysApplyFalse, AppendToMatch(line), off[i + len..])
    ensures Contains(SubAll(AlwaysApplyFalse, AppendToMatch(line), off), line)
  {
    FalseTextFound(off);
    SubAllInserts(AlwaysApplyFalse, AppendToMatch(line), off);
    i, len := SubAllFirst(AlwaysApplyFalse, AppendToMatch(line), off);
    JoinAround(off, i, len, line, SubAll(AlwaysApplyFalse, AppendToMatch(line), off[i + len..]));
  }

  /**
   * The rewrite of a rule without a `type:`: the new `type:` line goes on
   * the line after the first `alwaysApply: false` of the turned-off text,
   * everything up to the end of that match kept.
   */
  lemma TypeLineAdded(text: string) returns (i: nat, len: nat)
    requires HasMatch(AlwaysApplyTrue, text) && !Contains(text, "type:")
    ensures Find(AlwaysApplyFalse, TurnedOff(text)) == Some(i)
    ensures MatchLen(AlwaysApplyFalse, TurnedOff(text)[i..]) == Some(len) && i + len <= |TurnedOff(text)|
    ensures Rewrite(text) == TurnedOff(text)[..i + len] + ("\n" + TypeLine(TargetType(text)))
                             + SubAll(AlwaysApplyFalse, AppendToMatch("\n" + TypeLine(TargetType(text))), TurnedOff(text)[i + len..])
  {
    var off := TurnedOff(text);
    var line := "\n" + TypeLine(TargetType(text));
    TurnedOffEffect(text);
    assert Rewrite(text) == SubAll(AlwaysApplyFalse, AppendToMatch(line), off);
    i, len := TypeLineInserted(off, line);
  }

  /**
   * The rewrite of a rule with a quoted `type:` value: the first such value
   * of the turned-off text becomes the new type line, everything before it
   * kept.
   */
  lemma TypeValueReplaced(text: string) returns (i: nat, len: nat)
    requires Contains(text, "type:") && HasMatch(QuotedType, TurnedOff(text))
    ensures Find(QuotedType, TurnedOff(text)) == Some(i)
    ensures MatchLen(QuotedType, TurnedOff(text)[i..]) == Some(len) && i + len <= |TurnedOff(text)|
    ensures Rewrite(text) == TurnedOff(text)[..i] + TypeLine(TargetType(text))
                             + SubAll(QuotedType, Literal(TypeLine(TargetType(text))), TurnedOff(text)[i + len..])
  {
    var off := TurnedOff(text);
    var line := TypeLine(TargetType(text));
    assert Rewrite(text) == SubAll(QuotedType, Literal(line), off);
    i, len := SubAllFirst(QuotedType, Literal(line), off);
  }

  /**
   * The rewrite of an always-applied rule: the turned-off text has an
   * `alwaysApply: false` match; without a `type:` in the original the new
   * `type:` line is added, with a quoted value it is written in its place,
   * and otherwise the text is only turned off.
   */
  lemma RewriteEffect(text: string)
    requires HasMatch(AlwaysApplyTrue, text)
    ensures HasMatch(AlwaysApplyFalse, TurnedOff(text))
    ensures !Contains(text, "type:") ==> Contains(Rewrite(text), "\n" + TypeLine(TargetType(text)))
    ensures Contains(text, "type:") && HasMatch(QuotedType, TurnedOff(text)) ==> Contains(Rewrite(text), TypeLine(TargetType(text)))
    ensures Contains(text, "type:") && !HasMatch(QuotedType, TurnedOff(text)) ==> Rewrite(text) == TurnedOff(text)
  {
    var off := TurnedOff(text);
    var t := TargetType(text);
    TurnedOffEffect(text);
    FalseTextFound(off);
    if !Contains(text, "type:") {
      var _, _ := TypeLineInserted(off, "\n" + TypeLine(t));
    } else if HasMatch(QuotedType, off) {
      SubAllInserts(QuotedType, Literal(TypeLine(t)), off);
    } else {
      SubAllNoMatch(QuotedType, Literal(TypeLine(t)), off);
    }
  }

  // ---------------------------------------------------------------------
  // The optimizer run
  // ---------------------------------------------------------------------

  /**
   * A run of the optimizer: unless this is a dry run, the snapshot first;
   * then, unless only the always-apply change is asked for, the priority
   * adjustment; then, unless only the priority adjustment is asked for, the
   * always-apply change capped at 20, on the rules as the adjustment left
   * them.  A dry run changes nothing.
   */
  method Optimize(fs: FileSystem, listing: seq<string>, dryRun: bool, priorityOnly: bool, alwaysApplyOnly: bool)
    returns (priorityChanged: seq<string>, alwaysChanged: seq<IntelligentChange>)
    requires IsListing(listing, fs.rules)
    modifies fs
    ensures fs.archive == old(fs.archive)
    ensures dryRun ==> fs.rules == old(fs.rules) && fs.backup == old(fs.backup)
    ensures !dryRun ==> fs.backup == old(fs.rules)
    ensures priorityChanged == if alwaysApplyOnly then [] else PriorityTargets(listing, old(fs.rules), dryRun)
    ensures var mid := if alwaysApplyOnly then old(fs.rules) else PriorityAdjustedRules(listing, old(fs.rules), dryRun);
            && alwaysChanged == (if priorityOnly then [] else Changes(listing, mid, dryRun, Some(MaxChangesPerRun), KeepAlwaysApply))
            && fs.rules == (if priorityOnly then mid else IntelligentRules(listing, mid, dryRun, Some(MaxChangesPerRun), KeepAlwaysApply))
  {
    if !dryRun {
      BackupRules(fs, listing);
    }
    priorityChanged := [];
    alwaysChanged := [];
    if !alwaysApplyOnly {
      var rules;
      priorityChanged, rules := AdjustPriorities(listing, fs.rules, dryRun);
      fs.rules := rules;
    }
    if !priorityOnly {
      var rules;
      alwaysChanged, rules := ChangeAlwaysApply(listing, fs.rules, dryRun, Some(MaxChangesPerRun), KeepAlwaysApply);
      fs.rules := rules;
    }
  }
}
