# Cursor rules maintenance engine — a Dafny model

The repository maintains a directory of Cursor rule files (`.cursor/rules/*.mdc`).
Each file is Markdown with an optional YAML-like front matter between `---` lines
that carries `priority`, `alwaysApply`, `description`, `type`, `tags` and `globs`.
Its Python tools scan, diagnose, clean up and rewrite those files. This project
models the decision logic of those tools and proves what they promise:

* **Diagnostics** (`rules_diagnostics.py`, the `RulesManager` class). It parses
  each file's front matter. It detects four kinds of conflict: too many
  always-applied rules, too many rules at one priority, rules whose names are
  near duplicates (Jaccard similarity above 0.8), and too many priority-0 rules.
  It also estimates usage from file age, builds the priority map sorted by
  priority, and gives the report's recommendations.
* **Automatic cleanup** (`rules_auto_cleanup.py`, the `RulesAutoCleanup` class).
  It strips front matter and comment lines, then clusters rules whose core
  content is more than 80% similar. It keeps the best-scored rule of each
  cluster and moves the rest to the archive under a `duplicate_` name. It also
  archives `auto-learned` rules older than 30 days, and keeps the run's
  statistics.
* **Scheduler** (`rules_auto_cleanup_scheduler.py`). It archives rules unmodified
  for 30 days, warns about rules over 1000 lines, and computes the weekly
  statistics and their recommendations.
* **Optimizer** (`rules_optimizer.py`). It backs up the rules. It rewrites
  `priority: 0` to `priority: 1` outside a keep list, and turns `alwaysApply: true`
  rules into `intelligent` or `file-specific` ones, at most 20 per run.
* **Optimization plan** (`rules_optimization_plan.py`). It classifies the
  priority-0 rules into categories, partitions the always-applied rules, and
  assembles the plan.
* **Rule search** (`scripts/check_rules_before_solution.py`). It reads rule
  metadata, extracts keywords from a problem description, finds the related
  rules and sorts them by priority.

Directories are finite maps from file name to a `FileEntry`. An entry holds the
outcome of reading the file (its text or a read error), its size, its
modification time in seconds, and whether a write, move or delete of it
succeeds. The order in which `glob` lists a directory is a parameter `listing`
holding each name once (`Files.IsListing`). The current time is a parameter
`now`. The regular expressions the tools use are hand-written scanners in
`Patterns`, and `re.sub` is a leftmost, non-overlapping `SubAll`.

Objects whose fields the source updates are classes:
* `Files.FileSystem` holds the rules, archive and backup directories;
* `Manager.RulesManager` holds the rules, conflicts, usage statistics and
  priority map;
* `AutoCleanup.RulesAutoCleanup` holds the cleanup statistics.

Every loop of the source is a method with invariants, proved equal to a
specification function. The properties are proved about those functions.

## Model

| member | source | states |
|---|---|---|
| `Text.IndexOf` | rules_diagnostics.py:53-55 | the first position where the needle occurs, none before it, and `None` exactly when it occurs nowhere |
| `Text.Contains` | rules_auto_cleanup.py:221 | `in` on strings holds exactly when the needle occurs at some position |
| `Text.TrimStart` | rules_diagnostics.py:61 | `strip` removes exactly the leading run of stripped characters, leaving a suffix that starts with a kept character |
| `Text.TrimEnd` | rules_diagnostics.py:61 | `strip` removes exactly the trailing run of stripped characters, leaving a prefix that ends with a kept character |
| `Text.Split` | rules_diagnostics.py:58 | `split` on one character always yields at least one piece |
| `Text.SplitLength` | rules_auto_cleanup_scheduler.py:65 | `split('\n')` yields one more piece than there are newlines |
| `Text.JoinSplit` | rules_auto_cleanup.py:217-225 | joining the pieces of a split with the separator gives back the original text |
| `Text.SplitJoin` | rules_auto_cleanup.py:217-225 | splitting a join of separator-free pieces gives back the pieces |
| `Text.RunLength` | rules_optimizer.py:66 | the length of the longest prefix of `\s`-class characters; the next character is not one |
| `Text.Runs` | rules_diagnostics.py:156 | `findall(r'\w+')` yields non-empty runs made only of word characters |
| `Text.RunsSound` | rules_diagnostics.py:156 | every run found is a maximal run: a non-empty stretch of word characters with no word character right before or after it |
| `Text.RunsComplete` | rules_diagnostics.py:156 | every maximal run of word characters in the text is found |
| `Text.RunTextOfSuffix` | rules_diagnostics.py:156 | a maximal run of a suffix cut at a run boundary is a maximal run of the whole text |
| `Text.StripPadded` | rules_diagnostics.py:61 | `strip` removes exactly the whitespace around a text that starts and ends with a non-space |
| `Text.ParseIntDecimal` | rules_diagnostics.py:67 | `int` reads back what `str` writes for every integer, negative ones included, with any whitespace around it |
| `Text.ParseIntUnderscores` | rules_diagnostics.py:67 | `int` accepts digits separated by single underscores, as in ` 1_000\n` |
| `Text.ParseIntMisplacedUnderscore` | rules_diagnostics.py:67 | `int` rejects a doubled or a leading underscore |
| `Text.ParseIntNoDigit` | rules_diagnostics.py:66-69 | a text without a digit is not an integer |
| `Text.DigitGroupsPlain` | rules_diagnostics.py:67 | a plain run of digits is an integer literal whose value is its decimal value |
| `Text.Select` | rules_optimization_plan.py:130 | a list comprehension keeps exactly the elements meeting its condition, each as often as it occurs, in their original order |
| `Text.SelectAll` | rules_optimization_plan.py:130 | a comprehension whose condition holds everywhere gives the list back |
| `Files.OlderThanInWholeDays` | rules_auto_cleanup_scheduler.py:32-40 | the `mtime < now - days` cut-off agrees with whole-day age: more than `days` days old is past it, fewer is not |
| `Files.Remaining` | rules_auto_cleanup.py:83-84 | the names of a listing still in a directory, without repeats (their order: `Files.RemainingInOrder`) |
| `Files.RemainingInOrder` | rules_auto_cleanup.py:83-84 | the names left are the listing filtered by presence, in listing order |
| `Files.FileSystem.constructor` | rules_auto_cleanup.py:35-45 | a file system over the given rules and archive directories with an empty backup |
| `Header.FrontMatter` | rules_diagnostics.py:53-56 | `split('---', 2)`: the content is `---` + header + `---` + body, the header ending at the first `---` after the opening one; `None` when it does not start with `---` or has no second delimiter |
| `Header.FrontMatterOfBlock` | rules_diagnostics.py:53-56 | a block written as `---header---body` is read back as exactly that header and body |
| `Header.ParsedLines` | rules_diagnostics.py:58-61 | one key/value reading per header line, in order |
| `Header.AssignKeys` | rules_diagnostics.py:58-61 | a key is in the metadata exactly when some line with a colon sets it |
| `Header.AssignLastWins` | rules_diagnostics.py:58-61 | the metadata keeps the value of the last line that sets a key |
| `Header.HeaderMapKeys` | rules_diagnostics.py:58-61 | the keys of a header's metadata are exactly the keys its lines set |
| `Header.HeaderMapLastWins` | rules_diagnostics.py:58-61 | a header's metadata holds, for each key, the value from the last line that sets it |
| `Similarity.Jaccard` | rules_diagnostics.py:154-165 | the ratio has a positive denominator and is at most 1; it is 0 when either token set is empty, otherwise it is intersection over union |
| `Similarity.ExceedsIsAboveThreshold` | rules_auto_cleanup.py:142 | the integer comparison used for the threshold is exactly "ratio > 0.8" |
| `Similarity.JaccardSymmetric` | rules_auto_cleanup.py:227-239 | the similarity of a and b equals that of b and a |
| `Similarity.JaccardIdentical` | rules_auto_cleanup.py:227-239 | a text with at least one token has similarity 1 with itself, which exceeds the threshold |
| `Similarity.ExceedsNeedsSharedToken` | rules_auto_cleanup.py:227-239 | two texts above the threshold share at least one token |
| `Diagnostics.PriorityOf` | rules_diagnostics.py:63-69 | the priority is the value `int` reads from `priority`, and 5 when the key is missing or `int` fails |
| `Diagnostics.PriorityOfWritten` | rules_diagnostics.py:63-69 | a `priority` value that is an integer written out, whitespace around it allowed, is that priority |
| `Diagnostics.PriorityOfUnwritten` | rules_diagnostics.py:63-69 | a missing `priority` value, or one without a digit, gives priority 5 |
| `Diagnostics.ReadMetadata` | rules_diagnostics.py:52-61 | the loop over header lines yields the metadata map of the front matter |
| `Diagnostics.ReadHeader` | rules_diagnostics.py:58-61 | the loop over one header yields the last-wins map of its lines |
| `Diagnostics.ParseRuleFile` | rules_diagnostics.py:46-96 | the parsed record of one file equals its specification |
| `Diagnostics.UnreadableFileDegrades` | rules_diagnostics.py:90-96 | a record is degraded exactly when the read failed; a degraded record has priority 5 and is not always-applied; the name is always kept |
| `Diagnostics.NoHeaderDefaults` | rules_diagnostics.py:63-83 | a file without front matter has empty metadata, priority 5, alwaysApply false and an empty description |
| `Diagnostics.PriorityFromLastLine` | rules_diagnostics.py:58-67 | the priority comes from the last header line that sets `priority` |
| `Diagnostics.AlwaysApplyNames` | rules_diagnostics.py:103 | exactly the names of the always-applied rules |
| `Diagnostics.NamesWithPriority` | rules_diagnostics.py:114-116 | exactly the names of the rules at a given priority |
| `Diagnostics.PriorityOrder` | rules_diagnostics.py:114-118 | each priority that occurs, once, in order of first occurrence |
| `Diagnostics.OverloadFindingsUnique` | rules_diagnostics.py:118-126 | no two overload findings name the same priority |
| `Diagnostics.NameFindingsPairs` | rules_diagnostics.py:129-139 | a similar-names finding is reported exactly for each pair i < j whose names exceed the threshold |
| `Diagnostics.ConflictOrder` | rules_diagnostics.py:98-152 | the findings come in the source's order: always-apply, then overloads, then names, then priority 0 |
| `Diagnostics.SegmentsOf` | rules_diagnostics.py:98-152 | each kind of finding in the result is exactly the findings of its own check |
| `Diagnostics.OverloadPositions` | rules_diagnostics.py:114-126 | the overload findings occupy the positions right after the always-apply finding |
| `Diagnostics.AlwaysApplyConflict` | rules_diagnostics.py:103-111 | the too-many-always-apply finding is present exactly when more than 10 rules are always applied, and it lists them with high severity |
| `Diagnostics.OverloadConflicts` | rules_diagnostics.py:114-126 | an overload finding is present for a priority exactly when it has more than 15 rules, and it lists them with medium severity |
| `Diagnostics.OverloadConflictsUnique` | rules_diagnostics.py:118-126 | no two overload findings in the result share a priority |
| `Diagnostics.SimilarNameConflicts` | rules_diagnostics.py:129-139 | similar-name findings are exactly the above-threshold pairs; with distinct names they join two different names with low severity |
| `Diagnostics.PriorityZeroConflict` | rules_diagnostics.py:142-149 | the too-many-priority-0 finding is present exactly when more than 10 rules have priority 0, and it lists them with high severity |
| `Manager.Scan` | rules_diagnostics.py:32-44 | no directory gives no rules; otherwise one record per listed file, in order, degraded exactly when its read failed |
| `Manager.ScanAllRules` | rules_diagnostics.py:32-44 | the scanning loop yields the scan's specification |
| `Manager.Bucket` | rules_diagnostics.py:175-180 | high usage under 7 days, medium from 7 up to 30, low from 30 on |
| `Manager.BucketMonotone` | rules_diagnostics.py:175-180 | an older file never gets a higher usage estimate |
| `Manager.UsageOfKeys` | rules_diagnostics.py:171-186 | the usage map has exactly one key per rule name |
| `Manager.UsageOfEntry` | rules_diagnostics.py:171-186 | with distinct names, each rule's entry is its bucket and its age in days |
| `Manager.Take` | rules_diagnostics.py:200 | `[:50]` is a prefix of at most 50 characters, the whole text when it is shorter |
| `Manager.SortKeys` | rules_diagnostics.py:203 | the priorities sorted strictly ascending, with the same elements |
| `Manager.PriorityMapOrdered` | rules_diagnostics.py:203 | the groups of the priority map are in strictly increasing priority |
| `Manager.PriorityMapKeysOccur` | rules_diagnostics.py:193-203 | every group of the map belongs to a priority some rule has |
| `Manager.EntriesCount` | rules_diagnostics.py:195-201 | a priority's group has one entry per rule at that priority |
| `Manager.EntryListed` | rules_diagnostics.py:195-201 | every rule's entry is in the group of its priority |
| `Manager.PriorityMapListsEachRuleOnce` | rules_diagnostics.py:191-204 | the map holds as many entries as there are rules, and each rule is in the group of its priority |
| `Manager.GroupSizeIsCount` | rules_diagnostics.py:292 | the size the report reads for a priority is the number of rules at that priority |
| `Manager.AdviseFires` | rules_diagnostics.py:280-300 | each recommendation appears exactly when its threshold (50 rules, 10 always-applied, 20 unused, 15 high-priority) is exceeded, and "appropriate" appears exactly when none is |
| `Manager.RulesManager.constructor` | rules_diagnostics.py:26-30 | the scanned rules, no conflicts, empty usage statistics and an empty priority map |
| `Manager.RulesManager.DetectConflicts` | rules_diagnostics.py:98-152 | the findings of the four checks, stored in `conflicts`, nothing else changed |
| `Manager.RulesManager.AnalyzeUsage` | rules_diagnostics.py:167-189 | the usage map when every rule was parsed, stored in `usageStats`; fails, changing nothing, when a degraded record has no modification time |
| `Manager.RulesManager.GeneratePriorityMap` | rules_diagnostics.py:191-204 | the sorted priority map, stored in `priorityMap`, nothing else changed |
| `Manager.PriorityOverloads` | rules_diagnostics.py:118-126 | the loop over priority groups yields the overload findings |
| `Manager.NamesByPriority` | rules_diagnostics.py:114-116 | the `defaultdict` loop yields, for each priority in first-occurrence order, exactly its names |
| `Manager.SimilarNamePairs` | rules_diagnostics.py:129-139 | the nested loop yields the similar-name findings of all pairs i < j |
| `Manager.GroupByPriority` | rules_diagnostics.py:193-201 | the grouping loop yields, for each priority, exactly its entries in rule order |
| `Duplicates.KeptLines` | rules_auto_cleanup.py:217-223 | the lines kept are exactly those that are not `#` comments without `핵심` or `원칙` (their order: `Duplicates.KeptLinesInOrder`) |
| `Duplicates.KeptLinesInOrder` | rules_auto_cleanup.py:217-223 | the kept lines are the lines filtered by that test, in their original order |
| `Duplicates.CoreContentLines` | rules_auto_cleanup.py:208-225 | the core content is the body's kept lines joined back with newlines |
| `Duplicates.ReadableOrder` | rules_auto_cleanup.py:114-123 | the readable files, each once; unreadable ones are skipped (their order: `Duplicates.ReadableInOrder`) |
| `Duplicates.ReadableInOrder` | rules_auto_cleanup.py:114-123 | the readable files are the listing filtered by readability, in listing order |
| `Duplicates.CoresOf` | rules_auto_cleanup.py:114-123 | the core-content map has exactly the readable files, each mapped to its core content |
| `Duplicates.Gather` | rules_auto_cleanup.py:133-144 | a group starts with its anchor and adds only unprocessed rules above the threshold; every unprocessed rule above the threshold against the anchor is added; processed gains exactly the added members |
| `Duplicates.ClusterUpTo` | rules_auto_cleanup.py:126-148 | the clusters are disjoint, have at least two members each, and every member is above the threshold against its anchor |
| `Duplicates.ProcessedStep` | rules_auto_cleanup.py:129-148 | one turn of the outer loop keeps every processed file processed |
| `Duplicates.ProcessedKept` | rules_auto_cleanup.py:129-148 | a file processed after some turns of the outer loop stays processed to the end |
| `Duplicates.ProcessedAreGrouped` | rules_auto_cleanup.py:129-148 | every processed file is a member of some group |
| `Duplicates.AnchorTurn` | rules_auto_cleanup.py:129-148 | after a file's own turn, it or any other file above the threshold against it is processed |
| `Duplicates.PairProcessed` | rules_auto_cleanup.py:129-148 | of a file and another file above the threshold against it, one is processed by the end of the outer loop |
| `Duplicates.ClustersMaximal` | rules_auto_cleanup.py:126-148 | of two distinct files where the second is above the threshold against the first, at least one ends up in a group |
| `Duplicates.GroupedAtEnd` | rules_auto_cleanup.py:126-148 | a file processed by the end of the outer loop is in one of the groups returned |
| `Duplicates.EntryScore` | rules_auto_cleanup.py:247-274 | a score exists exactly when the file can be read |
| `Duplicates.Score` | rules_auto_cleanup.py:246-274 | a score exists exactly when the named file can be read |
| `Duplicates.BestSoFar` | rules_auto_cleanup.py:243-281 | the first strictly highest score above -1 and its position, or none when no score exceeds -1 |
| `Duplicates.Keeper` | rules_auto_cleanup.py:283 | the rule kept is a member of its group |
| `Duplicates.BestRuleChoice` | rules_auto_cleanup.py:276-283 | the chosen rule is in the group; when some score is at least 0 it has the highest score, the earliest on ties; otherwise it is the first file |
| `Duplicates.KeeperLocal` | rules_auto_cleanup.py:241-283 | the choice depends only on the group's own files |
| `Duplicates.Without` | rules_auto_cleanup.py:154 | the group without the kept rule: one member fewer when the group holds it once |
| `AutoCleanup.DuplicateGroups` | rules_auto_cleanup.py:110-148 | groups of at least two distinct readable listed files, no file in two groups |
| `AutoCleanup.DuplicateGroupsSimilar` | rules_auto_cleanup.py:133-144 | every member of a group has core content above the threshold against the group's first file |
| `AutoCleanup.DuplicateGroupsMaximal` | rules_auto_cleanup.py:126-148 | of two distinct readable listed files whose core contents are above the threshold, at least one is in a group |
| `AutoCleanup.Removals` | rules_auto_cleanup.py:151-154 | every removed file is a non-kept member of some group |
| `AutoCleanup.RemovalsCount` | rules_auto_cleanup.py:151-165 | the number removed is the total excess of the groups over one |
| `AutoCleanup.KeeperStays` | rules_auto_cleanup.py:151-154 | the rule kept from a group is never removed |
| `AutoCleanup.RemovalsDistinct` | rules_auto_cleanup.py:151-165 | no file is removed twice |
| `AutoCleanup.DuplicateRemovalsDistinct` | rules_auto_cleanup.py:108-167 | the duplicate removals are distinct files of the rules directory |
| `AutoCleanup.WithoutFiles` | rules_auto_cleanup.py:161 | the directory after unlinking has exactly the other names |
| `AutoCleanup.Stale` | rules_auto_cleanup.py:171-180 | exactly the `auto-learned` files modified before the 30-day cut-off (their order: `AutoCleanup.StaleInOrder`) |
| `AutoCleanup.StaleInOrder` | rules_auto_cleanup.py:171-180 | the stale files are the listing filtered by that test, in listing order |
| `AutoCleanup.StaleCriteria` | rules_auto_cleanup.py:173-180 | stale files are at least 30 whole days old; more than 30 days is stale; only auto-learned files are |
| `AutoCleanup.Movable` | rules_auto_cleanup.py:181-190 | exactly the candidates whose move succeeds (their order: `AutoCleanup.MovableInOrder`) |
| `AutoCleanup.MovableInOrder` | rules_auto_cleanup.py:181-190 | the files moved are the candidates filtered by writability, in their order |
| `AutoCleanup.RemainingAfterRemoval` | rules_auto_cleanup.py:83-84 | after removing distinct files, the count left plus the count removed is the count before |
| `AutoCleanup.ReadContents` | rules_auto_cleanup.py:114-123 | the read loop yields the readable order and the core-content map |
| `AutoCleanup.FindDuplicateGroups` | rules_auto_cleanup.py:126-148 | the clustering loop yields the specified clusters |
| `AutoCleanup.GatherGroup` | rules_auto_cleanup.py:133-144 | the inner loop yields the specified group and processed set |
| `AutoCleanup.SelectBestRule` | rules_auto_cleanup.py:241-283 | the loop picks the specified keeper |
| `AutoCleanup.RemoveFile` | rules_auto_cleanup.py:157-162 | copies to `duplicate_<name>` in the archive, then unlinks and records it; a failed unlink leaves the copy and fails |
| `AutoCleanup.RemoveFiles` | rules_auto_cleanup.py:156-165 | removes each non-kept file in order; when one cannot be removed it stops there: every file before it removed and recorded, that file still in place with its `duplicate_` copy in the archive |
| `AutoCleanup.OthersOf` | rules_auto_cleanup.py:153-154 | the group's non-kept members, chosen on the original files, one fewer than the group |
| `AutoCleanup.RemoveGroupAt` | rules_auto_cleanup.py:151-165 | handles one group: its removals extend those of the earlier groups; on failure, the earlier removals and the group's files before the stuck one are done, and the stuck file is copied but not removed |
| `AutoCleanup.RemoveGroups` | rules_auto_cleanup.py:151-167 | counts the excess; a dry run changes nothing; otherwise all removals are done, or the run stops at the first unwritable file to remove, with every removal before it done and that file copied to the archive |
| `AutoCleanup.StuckInRemovals` | rules_auto_cleanup.py:151-165 | a failure on a group's file is a failure at that position of all the removals |
| `AutoCleanup.ArchiveStale` | rules_auto_cleanup.py:169-192 | a dry run counts the stale files; otherwise the movable stale files are moved and counted |
| `AutoCleanup.RulesAutoCleanup.constructor` | rules_auto_cleanup.py:35-45 | all counters zero and no files recorded |
| `AutoCleanup.RulesAutoCleanup.RemoveDuplicateRules` | rules_auto_cleanup.py:108-167 | returns the excess of the duplicate groups; removes and records exactly the non-kept members, or stops at the first unwritable one with the removals before it done and that file copied; a dry run changes nothing |
| `AutoCleanup.RulesAutoCleanup.ArchiveOldAutoLearned` | rules_auto_cleanup.py:169-192 | a dry run counts the stale files; otherwise moves and records the movable ones and counts them |
| `AutoCleanup.RulesAutoCleanup.CleanupAll` | rules_auto_cleanup.py:47-106 | records the count before and after; a dry run changes nothing and counts the stale files; a real run removes the duplicates, then moves the movable stale files among those left, recording each, and accounts for every file: before = after + removed + archived; a failed removal stops it in the state `RemoveDuplicateRules` describes |
| `AutoCleanup.RemainingListed` | rules_auto_cleanup.py:83-84 | every file of a complete listing of a directory is still there |
| `OptimizationPlan.ClassifyIsFirstMatch` | rules_optimization_plan.py:41-61 | the category is the first whose keywords the lower-cased name contains, and "other" exactly when none does |
| `OptimizationPlan.PriorityZeroRules` | rules_optimization_plan.py:28 | exactly the rules with priority 0 |
| `OptimizationPlan.InCategoryMembers` | rules_optimization_plan.py:37-61 | a category's list holds exactly the rules classified into it |
| `OptimizationPlan.CategoryOrderMembers` | rules_optimization_plan.py:35-61 | a category is listed exactly when some rule falls into it |
| `OptimizationPlan.TallyAt` | rules_optimization_plan.py:124 | each category's count is the size of its list |
| `OptimizationPlan.CategoryCountsSum` | rules_optimization_plan.py:122-124 | the category counts add up to the number of priority-0 rules |
| `OptimizationPlan.Priority0AdviceFires` | rules_optimization_plan.py:79-116 | the merge advice appears exactly when there are more than 3 layer-0 or more than 1 critical rules; the demotion appears exactly when there are more than 10 priority-0 rules |
| `OptimizationPlan.MoveToOneMembers` | rules_optimization_plan.py:102-109 | the demoted names are exactly the priority-0 names outside the four kept ones (their order: `OptimizationPlan.MoveToOneInOrder`) |
| `OptimizationPlan.MoveToOneInOrder` | rules_optimization_plan.py:102-109 | the demoted names are the priority-0 names filtered by the keep list, in their order |
| `OptimizationPlan.AnalyzePriority0Rules` | rules_optimization_plan.py:26-126 | the loop yields the total, the category counts and the advice of the specification |
| `OptimizationPlan.CategorizeRules` | rules_optimization_plan.py:35-61 | the `defaultdict` loop yields each category in first-occurrence order with exactly its rules |
| `OptimizationPlan.AlwaysApplyPartition` | rules_optimization_plan.py:159-181 | a rule is kept exactly when it is a named priority 0 or 1 rule; kept rules are never changed; priority 1 goes to intelligent; priority 2 with globs goes to both lists |
| `OptimizationPlan.AlwaysApplyCounts` | rules_optimization_plan.py:203-209 | no count exceeds the number of always-applied rules, which is at most the number of rules |
| `OptimizationPlan.GenerateOptimizationPlan` | rules_optimization_plan.py:211-256 | no plan without an analysis; otherwise the specified plan, whose priority-0 count is the number of priority-0 rules |
| `RuleSearch.StemKeywords` | scripts/check_rules_before_solution.py:117-118 | the file-name keywords are non-empty words |
| `RuleSearch.ParseRuleMetadata` | scripts/check_rules_before_solution.py:37-120 | the parsing loop yields the metadata of the specification |
| `RuleSearch.FromHeaderUpdate` | scripts/check_rules_before_solution.py:87-114 | each known key updates only its own field, and other keys change nothing |
| `RuleSearch.UnreadableRuleDefaults` | scripts/check_rules_before_solution.py:52-64 | an unreadable file yields priority 10, no description, no type and empty lists |
| `RuleSearch.PriorityOfHeader` | scripts/check_rules_before_solution.py:87-88 | the last `priority` line wins; a value of ASCII digits is its number, anything else 10 |
| `RuleSearch.PriorityNeverNegative` | scripts/check_rules_before_solution.py:88 | `isdigit` rules out signs, so a priority is never negative |
| `RuleSearch.SignedPriorityIsDefault` | scripts/check_rules_before_solution.py:88 | a signed value such as `-1` or `+2` gives the default 10 |
| `RuleSearch.AlwaysApplyWords` | scripts/check_rules_before_solution.py:91-92 | `true`, `1` and `yes` in any case switch alwaysApply on; other words do not |
| `RuleSearch.ListValueCases` | scripts/check_rules_before_solution.py:95-114 | an unbracketed value is a one-element list; a bracketed one is the literal read, or empty when it cannot be read |
| `RuleSearch.Occurring` | scripts/check_rules_before_solution.py:135-138 | exactly the candidate keywords contained in the text |
| `RuleSearch.LongWords` | scripts/check_rules_before_solution.py:141-142 | exactly the words longer than three characters |
| `RuleSearch.ExtractKeywords` | scripts/check_rules_before_solution.py:122-144 | the loop yields the keyword set of the specification |
| `RuleSearch.FindCommonKeywords` | scripts/check_rules_before_solution.py:135-138 | the loop yields exactly the common keywords that occur |
| `RuleSearch.KeywordsFound` | scripts/check_rules_before_solution.py:122-144 | a keyword is either a common keyword in the text or a word longer than three characters; either way it occurs in the lower-cased text |
| `RuleSearch.NoKeywordsInEmptyProblem` | scripts/check_rules_before_solution.py:122-144 | an empty description has no keywords |
| `RuleSearch.RelatedHits` | scripts/check_rules_before_solution.py:185-230 | every hit is a listed file carrying the search keywords |
| `RuleSearch.RelatedHitsExact` | scripts/check_rules_before_solution.py:185-230 | a hit is reported exactly for a listed file whose name, description, tags or name keywords mention a keyword; the hit holds the file's name, its path (the rules directory's path, `/`, the name), its metadata and the keywords |
| `RuleSearch.NoKeywordsNoHits` | scripts/check_rules_before_solution.py:192-220 | without keywords nothing matches |
| `RuleSearch.InsertKeepsOrder` | scripts/check_rules_before_solution.py:233 | inserting by priority keeps a sorted list sorted |
| `RuleSearch.SortByPriorityIsStableSort` | scripts/check_rules_before_solution.py:233 | the sort orders by priority, permutes the hits and keeps hits of equal priority in their order |
| `RuleSearch.SearchRulesFiles` | scripts/check_rules_before_solution.py:146-235 | the search yields the result of the specification |
| `RuleSearch.CollectRelated` | scripts/check_rules_before_solution.py:183-230 | the loop over files yields the related hits |
| `RuleSearch.SearchResultSpec` | scripts/check_rules_before_solution.py:166-235 | a missing directory gives nothing; otherwise the related hits, sorted stably by priority |
| `Scheduler.Unused` | rules_auto_cleanup_scheduler.py:32-40 | exactly the listed files modified before the cut-off (their order: `Scheduler.UnusedInOrder`) |
| `Scheduler.UnusedInOrder` | rules_auto_cleanup_scheduler.py:32-40 | the unused files are the listing filtered by the cut-off, in listing order |
| `Scheduler.UnusedCriteria` | rules_auto_cleanup_scheduler.py:32-40 | a file is unused exactly when its mtime is before `now - days`; then it is at least `days` whole days old |
| `Scheduler.EntriesMembers` | rules_auto_cleanup_scheduler.py:47-51 | each entry carries the file's mtime and its age in whole days |
| `Scheduler.ArchivedEntriesSound` | rules_auto_cleanup_scheduler.py:35-54 | an entry is reported exactly for an unused file that was moved (or would be, in a dry run), and its age is at least the threshold |
| `Scheduler.SweepUnused` | rules_auto_cleanup_scheduler.py:35-56 | the loop reports the archived entries; a dry run moves nothing; otherwise exactly the movable unused files go to the archive |
| `Scheduler.ArchiveUnusedRules` | rules_auto_cleanup_scheduler.py:28-56 | the same, as a change to the file system that leaves the backup alone |
| `Scheduler.LineCountIsNewlines` | rules_auto_cleanup_scheduler.py:65 | the line count is one more than the number of newlines |
| `Scheduler.LongRules` | rules_auto_cleanup_scheduler.py:62-77 | at most one warning per listed file |
| `Scheduler.LongRulesExact` | rules_auto_cleanup_scheduler.py:62-75 | a warning is given exactly for a readable file with more lines than the threshold, with its line count and size |
| `Scheduler.CheckLongRules` | rules_auto_cleanup_scheduler.py:58-77 | the loop yields the specified warnings |
| `Scheduler.Weekly` | rules_auto_cleanup_scheduler.py:84-123 | the total is the number of listed files |
| `Scheduler.WeeklyBounds` | rules_auto_cleanup_scheduler.py:95-120 | no counter exceeds the total, and recently modified plus unused is at most the total |
| `Scheduler.WeeklyReportStats` | rules_auto_cleanup_scheduler.py:84-123 | the loop yields the weekly statistics |
| `Scheduler.RecommendationsFire` | rules_auto_cleanup_scheduler.py:148-163 | each recommendation appears exactly when its threshold (20, 10, 0) is exceeded, with the counted number; "appropriate" appears alone exactly when none is |
| `Scheduler.GenerateWeeklyReport` | rules_auto_cleanup_scheduler.py:79-163 | the statistics and recommendations of the specification, at least one recommendation |
| `Optimizer.Rewritten` | rules_optimizer.py:70-71 | rewriting some files keeps every name and leaves the others unchanged |
| `Optimizer.CopyAll` | rules_optimizer.py:25-26 | the copy loop yields a backup equal to the rules directory |
| `Optimizer.BackupRules` | rules_optimizer.py:21-29 | the backup holds the rules, which are unchanged |
| `Optimizer.PriorityTargets` | rules_optimizer.py:58-73 | exactly the listed files that qualify, each once (their order: `Optimizer.PriorityTargetsInOrder`) |
| `Optimizer.PriorityTargetsInOrder` | rules_optimizer.py:58-73 | the targets are the listing filtered by that test, in listing order |
| `Optimizer.PriorityAdjustedEffect` | rules_optimizer.py:66-68 | after the substitution no `priority:\s*0` is left, and `priority: 1` was written when there was one; text without one is unchanged |
| `Optimizer.PriorityAdjustmentSound` | rules_optimizer.py:40-78 | kept files are never changed; a file changes exactly when it is readable, matches, is outside the keep list and (wet run) writable; a changed file has no `priority: 0` left |
| `Optimizer.AdjustPriorities` | rules_optimizer.py:40-78 | the loop reports the qualifying files and yields the rewritten directory |
| `Optimizer.ChangeOf` | rules_optimizer.py:123-174 | a change is reported for the file it was computed from |
| `Optimizer.Changes` | rules_optimizer.py:116-176 | at most one change per listed file |
| `Optimizer.ChangesCapPrefix` | rules_optimizer.py:116-176 | with a positive cap, the changes are the first cap of the uncapped changes (all of them when there are fewer) |
| `Optimizer.ChangesOncePerFile` | rules_optimizer.py:116-176 | with a listing holding each file once, no file is changed twice |
| `Optimizer.UnlistedUnchanged` | rules_optimizer.py:116-176 | a file outside the listing gets no change |
| `Optimizer.ChangesSound` | rules_optimizer.py:116-171 | each change is for a listed, unkept, readable always-applied file, with the type from its globs and the priority it states, or 5 when it states none |
| `Optimizer.ChangesUncapped` | rules_optimizer.py:116-171 | without a cap, a change is reported exactly for each qualifying file |
| `Optimizer.ChangesCapped` | rules_optimizer.py:120-121 | a positive cap bounds the number of changes; a negative cap allows none |
| `Optimizer.CappedStays` | rules_optimizer.py:120-121 | once the cap is reached, the rest of the listing adds no change |
| `Optimizer.ConvertFile` | rules_optimizer.py:123-174 | one file's change is appended and, in a wet run, the file is rewritten |
| `Optimizer.SweepAlwaysApply` | rules_optimizer.py:116-121 | the loop stops at the end of the listing or at an unkept file once the cap is reached |
| `Optimizer.ChangeAlwaysApply` | rules_optimizer.py:80-176 | the sweep yields the specified changes and rewritten directory |
| `Optimizer.TurnedOffEffect` | rules_optimizer.py:142-147 | after the substitution no `alwaysApply:\s*true` is left and `alwaysApply: false` is present |
| `Optimizer.TypeLineInserted` | rules_optimizer.py:150-156 | the text up to the end of the first `alwaysApply:\s*false` match is kept and the inserted line follows that match at once; the substitution goes on after it |
| `Optimizer.RewriteEffect` | rules_optimizer.py:141-162 | the turned-off text has an `alwaysApply:\s*false` match; without a `type:` the type line is present afterwards, with a quoted type the new type line is present, otherwise only alwaysApply changes |
| `Optimizer.TypeLineAdded` | rules_optimizer.py:150-156 | without a `type:`, the new content is the turned-off text up to the end of its first `alwaysApply:\s*false` match, then a newline and the type line, then the substitution of the rest |
| `Optimizer.TypeValueReplaced` | rules_optimizer.py:157-162 | with a quoted `type:` value, the new content is the turned-off text before its first `type:\s*"[^"]*"` match, then the type line in place of that match, then the substitution of the rest |
| `Optimizer.Optimize` | rules_optimizer.py:195-212 | backs up in a wet run, then runs the selected steps in order, the second with a cap of 20 and the 16 kept names, and leaves the archive alone |
| `Patterns.Find` | rules_optimizer.py:129 | the leftmost position where the pattern matches, none before it, and none exactly when there is no match |
| `Patterns.FirstPriority` | rules_optimizer.py:129-130 | a priority number is found exactly when `priority:\s*\d+` matches |
| `Patterns.SubAllNoMatch` | rules_optimizer.py:68 | substitution leaves a text without a match unchanged |
| `Patterns.SubAllInserts` | rules_optimizer.py:142-147 | substitution in a text with a match writes the replacement |
| `Patterns.SubAllSkip` | rules_optimizer.py:152-156 | `re.sub` copies the text before the first position where a match starts |
| `Patterns.SubAllAt` | rules_optimizer.py:152-156 | with the first match at `i`, `re.sub` keeps the text before it, replaces that match and goes on after it |
| `Patterns.SubAllFirst` | rules_optimizer.py:158-162 | the same for the leftmost match `re.search` finds |
| `Optimizer.FalseTextFound` | rules_optimizer.py:142-156 | a text holding `alwaysApply: false` has an `alwaysApply:\s*false` match |
| `Patterns.SubAllRemovesMatches` | rules_optimizer.py:142-147 | when the replacement can neither start a match nor complete one, no match is left |
| `Patterns.PriorityOneIsSafe` | rules_optimizer.py:68 | `priority: 1` cannot start or complete a `priority:\s*0` match |
| `Patterns.AlwaysApplyFalseIsSafe` | rules_optimizer.py:142-147 | `alwaysApply: false` cannot start or complete an `alwaysApply:\s*true` match |

## Left out

- File I/O is modelled on in-memory directories. A failed `read_text` is a `ReadError` entry. A failed write, move or unlink is an entry that is not writable. Permissions, partial writes and files appearing mid-run are not modelled.
- `datetime.now()` is one `now` parameter per operation. The source reads the clock several times in one run; the model assumes they agree.
- The order of `glob` is a `listing` parameter. The model does not choose an order of its own.
- Floating point is not modelled. Jaccard similarity is an exact ratio of integers, and the 0.8 threshold is an integer comparison. Kilobyte sizes, averages and percentages appear only in printed text and are left out.
- Python's regular-expression engine is not modelled. Each pattern the tools use is a hand-written scanner. `\s`, `str.strip()` and `str.split()` use Python's whitespace (the characters for which `str.isspace()` holds). `\d` is the ASCII digits only, and `\w` is ASCII letters, digits, `_` and Hangul; other Unicode letters and digits are not word characters in the model.
- Text.ParseInt: `int()` also accepts the decimal digits of other scripts (such as `٣` or `３`); the model reads only ASCII digits, so such a value gives the default priority 5 where the source reads a number.
- RuleSearch.PriorityValue: `str.isdigit()` also holds for other Unicode digits. For a decimal digit of another script the source reads a number where the model gives 10. For a digit that is not decimal, such as `²`, `isdigit()` holds but `int()` raises `ValueError`; nothing catches it, so `search_rules_files` aborts (scripts/check_rules_before_solution.py:88, 185-190). The model gives 10 instead and does not model that abort.
- RuleSearch.PriorityOfHeader: states the ASCII-digit reading only, for the reason given for `RuleSearch.PriorityValue`.
- `str.lower` folds ASCII letters only.
- `ast.literal_eval` is a `readList` parameter returning the list or `None`. Its Python grammar is not modelled.
- Printed progress, report texts, JSON export (`export_to_json`, the plan file, the report file), `argparse` front ends and `main` functions are left out. They only format what the modelled operations return.
- Console re-encoding on Windows is left out, and so are the git push scripts. They only do I/O.
- The workspace lookup (`get_workspace_root`, the `CURSOR_WORKSPACE` variable) is an `Option<Dir>`. `None` stands for a missing rules directory.
- `optimize_rules_structure` only prints two counts and returns `True`, so it is not modelled.
- Manager.RulesManager.AnalyzeUsage: a degraded record has no modification time, so the source raises `KeyError`; the model returns `None` and leaves the statistics unchanged.
- `last_modified` is not rendered as the `%Y-%m-%d` text: in the scheduler's unused-rule entries (`Scheduler.UnusedRule`) it is the modification time in seconds, and in the diagnostics usage entries (`Manager.Usage`, rules_diagnostics.py:185) it is left out, because calendar formatting of a timestamp is not part of this model.
- `size_kb` (scheduler) is the size in bytes, not divided by 1024.
- Optimizer.Rewritten: a rewritten file keeps its recorded size and modification time.
- Optimizer.ChangeAlwaysApply: the 16 kept names are a parameter `keep`. `Optimizer.Optimize` passes them.
- Optimizer.RewriteEffect: the test `re.search(r'type:\s*', ...)` is modelled as containing `type:`, which is the same condition because `\s*` can match nothing.
- Optimizer.ChangeAlwaysApply: `max_changes` is an `Option<int>`; `None` and `0` mean no cap, as Python's truthiness test does.
- OptimizationPlan.GenerateOptimizationPlan: a malformed analysis (a rule without `name`) raises `KeyError` in the source; the model's rules always have a name.
- RuleSearch.ExtractKeywords: `list(set(...))` has no defined order, so the keywords are a set.
- The `generated_at` timestamps of the plan and the JSON export are left out.
