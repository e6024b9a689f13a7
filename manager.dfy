/**
 * The `RulesManager` object: it scans the rule directory once, and its
 * methods fill in the conflicts, the usage estimates and the priority map
 * from the scanned records; the report's recommendations are computed from
 * those four fields.
 */
module Manager {
  import opened Wrappers
  import opened Text
  import opened Similarity
  import opened Files
  import opened Diagnostics

  // ---------------------------------------------------------------------
  // Scanning
  // ---------------------------------------------------------------------

  /**
   * `scan_all_rules`: one record per listed file, in listing order, and
   * none when the directory does not exist.
   */
  function Scan(dir: Option<Dir>, listing: seq<string>): (r: seq<RuleInfo>)
    requires dir.Some? ==> IsListing(listing, dir.value)
    ensures dir.None? ==> r == []
    ensures dir.Some? ==> |r| == |listing|
    ensures dir.Some? ==> forall i :: 0 <= i < |r| ==>
              r[i].name == listing[i] && (r[i].Degraded? <==> dir.value[listing[i]].content.ReadError?)
  {
    match dir
    case None => []
    case Some(d) =>
      var r := seq(|listing|, i requires 0 <= i < |listing| => ParseRule(listing[i], d[listing[i]]));
      assert forall i :: 0 <= i < |r| ==> r[i].name == listing[i] by {
        forall i | 0 <= i < |r| {
          UnreadableFileDegrades(listing[i], d[listing[i]]);
        }
      }
      assert forall i :: 0 <= i < |r| ==> (r[i].Degraded? <==> d[listing[i]].content.ReadError?) by {
        forall i | 0 <= i < |r| {
          UnreadableFileDegrades(listing[i], d[listing[i]]);
        }
      }
      r
  }

  /** The scanning loop: every listed file is parsed and appended, unreadable ones as degraded records. */
  method ScanAllRules(dir: Option<Dir>, listing: seq<string>) returns (rules: seq<RuleInfo>)
    requires dir.Some? ==> IsListing(listing, dir.value)
    ensures rules == Scan(dir, listing)
  {
    rules := [];
    if dir.None? {
      return;
    }
    var d := dir.value;
    for i := 0 to |listing|
      invariant |rules| == i
      invariant forall k :: 0 <= k < i ==> rules[k] == ParseRule(listing[k], d[listing[k]])
    {
      var info := ParseRuleFile(listing[i], d[listing[i]]);
      rules := rules + [info];
    }
  }

  // ---------------------------------------------------------------------
  // Usage estimate
  // ---------------------------------------------------------------------

  /** The estimated usage of a rule, from the age of its last modification. */
  datatype Estimate = HighUsage | MediumUsage | LowUsage

  datatype Usage = Usage(estimated: Estimate, daysOld: int)

  /** Under a week old is high use, under 30 days medium, anything older low. */
  function Bucket(days: int): (e: Estimate)
    ensures e == HighUsage <==> days < 7
    ensures e == MediumUsage <==> 7 <= days < 30
    ensures e == LowUsage <==> days >= 30
  {
    if days < 7 then HighUsage else if days < 30 then MediumUsage else LowUsage
  }

  function EstimateRank(e: Estimate): nat {
    match e
    case HighUsage => 0
    case MediumUsage => 1
    case LowUsage => 2
  }

  /** An older rule never gets a busier estimate than a newer one. */
  lemma BucketMonotone(d1: int, d2: int)
    requires d1 <= d2
    ensures EstimateRank(Bucket(d1)) <= EstimateRank(Bucket(d2))
  {
  }

  predicate AllParsed(rules: seq<RuleInfo>) {
    forall i :: 0 <= i < |rules| ==> rules[i].Parsed?
  }

  /** The usage dictionary `analyze_usage` builds, a later record with the same name overwriting an earlier one. */
  function UsageOf(rules: seq<RuleInfo>, now: int): map<string, Usage>
    requires AllParsed(rules)
  {
    if |rules| == 0 then map[]
    else
      var last := rules[|rules| - 1];
      var days := DaysOld(now, last.modified);
      UsageOf(rules[..|rules| - 1], now)[last.name := Usage(Bucket(days), days)]
  }

  /** The dictionary has exactly one entry per rule name. */
  lemma {:induction false} UsageOfKeys(rules: seq<RuleInfo>, now: int)
    requires AllParsed(rules)
    ensures forall n :: n in UsageOf(rules, now) <==> exists i :: 0 <= i < |rules| && rules[i].name == n
  {
    if |rules| > 0 {
      var init := rules[..|rules| - 1];
      UsageOfKeys(init, now);
      assert forall i :: 0 <= i < |init| ==> init[i] == rules[i];
    }
  }

  /** With distinct names, each rule's entry is the bucket of its own age. */
  lemma {:induction false} UsageOfEntry(rules: seq<RuleInfo>, now: int, i: nat)
    requires AllParsed(rules) && Distinct(Names(rules)) && i < |rules|
    ensures rules[i].name in UsageOf(rules, now)
    ensures UsageOf(rules, now)[rules[i].name]
            == Usage(Bucket(DaysOld(now, rules[i].modified)), DaysOld(now, rules[i].modified))
  {
    var init := rules[..|rules| - 1];
    if i < |rules| - 1 {
      assert forall k :: 0 <= k < |init| ==> init[k] == rules[k];
      assert Names(init) == Names(rules)[..|rules| - 1];
      UsageOfEntry(init, now, i);
      assert Names(rules)[i] != Names(rules)[|rules| - 1];
    }
  }

  // ---------------------------------------------------------------------
  // Priority map
  // ---------------------------------------------------------------------

  /** One rule as the priority map lists it: name, always-apply flag, first 50 characters of its description. */
  datatype PriorityEntry = PriorityEntry(name: string, alwaysApply: bool, description: string)

  datatype PriorityGroup = PriorityGroup(priority: int, entries: seq<PriorityEntry>)

  const DescriptionWidth: nat := 50

  /** `s[:n]`. */
  function Take(s: string, n: nat): (r: string)
    ensures |r| <= n && r <= s
    ensures |s| <= n ==> r == s
  {
    if |s| <= n then s else s[..n]
  }

  function EntryOf(r: RuleInfo): PriorityEntry {
    PriorityEntry(r.name, r.alwaysApply, Take(if r.Parsed? then r.description else "", DescriptionWidth))
  }

  /** The entries of the rules with priority `p`, in rule order. */
  function EntriesWithPriority(rules: seq<RuleInfo>, p: int): seq<PriorityEntry> {
    if |rules| == 0 then []
    else
      var last := rules[|rules| - 1];
      EntriesWithPriority(rules[..|rules| - 1], p) + (if last.priority == p then [EntryOf(last)] else [])
  }

  lemma EntriesWithPriorityStep(rules: seq<RuleInfo>, i: nat)
    requires i < |rules|
    ensures forall p :: EntriesWithPriority(rules[..i + 1], p)
                        == EntriesWithPriority(rules[..i], p) + (if rules[i].priority == p then [EntryOf(rules[i])] else [])
  {
    assert rules[..i + 1][..i] == rules[..i];
  }

  lemma {:induction false} EntriesWithPriorityAbsent(rules: seq<RuleInfo>, p: int)
    requires p !in PriorityOrder(rules)
    ensures EntriesWithPriority(rules, p) == []
  {
    if |rules| > 0 {
      var init := rules[..|rules| - 1];
      assert forall i :: 0 <= i < |init| ==> init[i] == rules[i];
      assert p !in PriorityOrder(init);
      EntriesWithPriorityAbsent(init, p);
    }
  }

  predicate StrictlyIncreasing(s: seq<int>) {
    forall i, j :: 0 <= i < j < |s| ==> s[i] < s[j]
  }

  /** `x` inserted into the increasing sequence `s` at its place. */
  function Insert(x: int, s: seq<int>): (r: seq<int>)
    requires StrictlyIncreasing(s) && x !in s
    ensures StrictlyIncreasing(r)
    ensures |r| == |s| + 1
    ensures forall y :: y in r <==> y == x || y in s
  {
    if |s| == 0 then [x]
    else if x < s[0] then [x] + s
    else
      var rest := Insert(x, s[1..]);
      assert x != s[0];
      assert forall k :: 0 <= k < |rest| ==> rest[k] in rest;
      assert forall k :: 1 <= k < |s| ==> s[0] < s[k] && s[k] in s[1..];
      assert forall k :: 0 <= k < |rest| ==> s[0] < rest[k];
      [s[0]] + rest
  }

  /** The keys of `sorted(d.items())` for a dictionary whose keys, in insertion order, are `s`. */
  function SortKeys(s: seq<int>): (r: seq<int>)
    requires Distinct(s)
    ensures StrictlyIncreasing(r)
    ensures |r| == |s|
    ensures forall y :: y in r <==> y in s
  {
    if |s| == 0 then []
    else
      var init := s[..|s| - 1];
      assert forall y :: y in s <==> y in init || y == s[|s| - 1];
      Insert(s[|s| - 1], SortKeys(init))
  }

  /** The priorities of `rules` in ascending order, each once. */
  function MapKeys(rules: seq<RuleInfo>): seq<int> {
    SortKeys(PriorityOrder(rules))
  }

  /** `dict(sorted(priority_map.items()))`: one group per priority, ascending. */
  function PriorityMapOf(rules: seq<RuleInfo>): seq<PriorityGroup> {
    var keys := MapKeys(rules);
    seq(|keys|, k requires 0 <= k < |keys| => PriorityGroup(keys[k], EntriesWithPriority(rules, keys[k])))
  }

  /** The groups come in strictly ascending order of priority. */
  lemma PriorityMapOrdered(rules: seq<RuleInfo>)
    ensures forall i, j :: 0 <= i < j < |PriorityMapOf(rules)| ==>
              PriorityMapOf(rules)[i].priority < PriorityMapOf(rules)[j].priority
  {
    var keys := MapKeys(rules);
    assert forall k :: 0 <= k < |keys| ==> PriorityMapOf(rules)[k].priority == keys[k];
  }

  /** Each group's priority is that of some rule. */
  lemma PriorityMapKeysOccur(rules: seq<RuleInfo>)
    ensures forall k :: 0 <= k < |PriorityMapOf(rules)| ==>
              exists i :: 0 <= i < |rules| && rules[i].priority == PriorityMapOf(rules)[k].priority
  {
    var keys := MapKeys(rules);
    var pm := PriorityMapOf(rules);
    forall k | 0 <= k < |pm|
      ensures exists i :: 0 <= i < |rules| && rules[i].priority == pm[k].priority
    {
      assert pm[k].priority == keys[k] && keys[k] in keys;
      assert keys[k] in PriorityOrder(rules);
    }
  }

  /** The number of entries with priority `p` is the number of rules with priority `p`. */
  function CountWithPriority(rules: seq<RuleInfo>, p: int): nat {
    if |rules| == 0 then 0
    else CountWithPriority(rules[..|rules| - 1], p) + (if rules[|rules| - 1].priority == p then 1 else 0)
  }

  lemma {:induction false} EntriesCount(rules: seq<RuleInfo>, p: int)
    ensures |EntriesWithPriority(rules, p)| == CountWithPriority(rules, p)
  {
    if |rules| > 0 {
      EntriesCount(rules[..|rules| - 1], p);
    }
  }

  /** The rule at `i` is listed under its own priority. */
  lemma {:induction false} EntryListed(rules: seq<RuleInfo>, i: nat)
    requires i < |rules|
    ensures EntryOf(rules[i]) in EntriesWithPriority(rules, rules[i].priority)
  {
    var init := rules[..|rules| - 1];
    if i < |rules| - 1 {
      EntryListed(init, i);
      assert init[i] == rules[i];
    }
  }

  /** The total number of entries under the keys `ks`. */
  function CountUnder(rules: seq<RuleInfo>, ks: seq<int>): nat {
    if |ks| == 0 then 0 else CountUnder(rules, ks[..|ks| - 1]) + CountWithPriority(rules, ks[|ks| - 1])
  }

  /** How many times `x` occurs in `ks`. */
  function Occurrences(ks: seq<int>, x: int): nat {
    if |ks| == 0 then 0 else Occurrences(ks[..|ks| - 1], x) + (if ks[|ks| - 1] == x then 1 else 0)
  }

  lemma {:induction false} OccursOnce(ks: seq<int>, x: int)
    requires Distinct(ks) && x in ks
    ensures Occurrences(ks, x) == 1
  {
    var init := ks[..|ks| - 1];
    assert forall k :: 0 <= k < |init| ==> init[k] == ks[k];
    if ks[|ks| - 1] == x {
      OccursNot(init, x);
    } else {
      assert x in init;
      OccursOnce(init, x);
    }
  }

  lemma {:induction false} OccursNot(ks: seq<int>, x: int)
    requires x !in ks
    ensures Occurrences(ks, x) == 0
  {
    if |ks| > 0 {
      assert ks[..|ks| - 1] <= ks;
      OccursNot(ks[..|ks| - 1], x);
    }
  }

  lemma {:induction false} CountUnderEmpty(ks: seq<int>)
    ensures CountUnder([], ks) == 0
  {
    if |ks| > 0 {
      CountUnderEmpty(ks[..|ks| - 1]);
    }
  }

  lemma {:induction false} CountUnderStep(rules: seq<RuleInfo>, ks: seq<int>)
    requires |rules| > 0
    ensures CountUnder(rules, ks) == CountUnder(rules[..|rules| - 1], ks) + Occurrences(ks, rules[|rules| - 1].priority)
  {
    if |ks| > 0 {
      CountUnderStep(rules, ks[..|ks| - 1]);
    }
  }

  /** Keys that are distinct and cover every priority count each rule exactly once. */
  lemma {:induction false} CountUnderAll(rules: seq<RuleInfo>, ks: seq<int>)
    requires Distinct(ks)
    requires forall i :: 0 <= i < |rules| ==> rules[i].priority in ks
    ensures CountUnder(rules, ks) == |rules|
  {
    if |rules| == 0 {
      CountUnderEmpty(ks);
    } else {
      var init := rules[..|rules| - 1];
      assert forall i :: 0 <= i < |init| ==> init[i] == rules[i];
      CountUnderAll(init, ks);
      CountUnderStep(rules, ks);
      OccursOnce(ks, rules[|rules| - 1].priority);
    }
  }

  /** The number of entries in all groups of a priority map. */
  function TotalEntries(pm: seq<PriorityGroup>): nat {
    if |pm| == 0 then 0 else TotalEntries(pm[..|pm| - 1]) + |pm[|pm| - 1].entries|
  }

  lemma {:induction false} TotalEntriesIsCount(rules: seq<RuleInfo>, keys: seq<int>, pm: seq<PriorityGroup>)
    requires |pm| == |keys|
    requires forall k :: 0 <= k < |keys| ==> pm[k] == PriorityGroup(keys[k], EntriesWithPriority(rules, keys[k]))
    ensures TotalEntries(pm) == CountUnder(rules, keys)
  {
    if |pm| > 0 {
      TotalEntriesIsCount(rules, keys[..|keys| - 1], pm[..|pm| - 1]);
      EntriesCount(rules, keys[|keys| - 1]);
    }
  }

  /**
   * Every rule appears in the map exactly once: under the group of its own
   * priority, and the groups together hold as many entries as there are rules.
   */
  lemma PriorityMapListsEachRuleOnce(rules: seq<RuleInfo>)
    ensures TotalEntries(PriorityMapOf(rules)) == |rules|
    ensures forall i :: 0 <= i < |rules| ==>
              exists k :: 0 <= k < |PriorityMapOf(rules)| && PriorityMapOf(rules)[k].priority == rules[i].priority
                          && EntryOf(rules[i]) in PriorityMapOf(rules)[k].entries
  {
    var keys := MapKeys(rules);
    var pm := PriorityMapOf(rules);
    assert Distinct(keys);
    forall i | 0 <= i < |rules|
      ensures rules[i].priority in keys
    {
    }
    TotalEntriesIsCount(rules, keys, pm);
    CountUnderAll(rules, keys);
    forall i | 0 <= i < |rules|
      ensures exists k :: 0 <= k < |pm| && pm[k].priority == rules[i].priority && EntryOf(rules[i]) in pm[k].entries
    {
      var k :| 0 <= k < |keys| && keys[k] == rules[i].priority;
      EntryListed(rules, i);
      assert pm[k].priority == rules[i].priority && EntryOf(rules[i]) in pm[k].entries;
    }
  }

  // ---------------------------------------------------------------------
  // Recommendations
  // ---------------------------------------------------------------------

  const MaxRules: nat := 50
  const MaxAlwaysApplyAdvised: nat := 10
  const MaxUnused: nat := 20
  const MaxHighPriority: nat := 15

  /** One line of the report's advice section. */
  datatype Advice =
    | TooManyRules(count: nat)
    | TooManyAlwaysApplyRules(count: nat)
    | ManyUnused(count: nat)
    | CrowdedHighPriority(count: nat)
    | SettingsAppropriate

  /** How many rules the usage dictionary estimates as low use. */
  function LowUsageCount(usage: map<string, Usage>): nat {
    |set n | n in usage && usage[n].estimated == LowUsage|
  }

  /** `len(priority_map.get(p, []))`. */
  function GroupSize(pm: seq<PriorityGroup>, p: int): nat {
    if |pm| == 0 then 0
    else if pm[0].priority == p then |pm[0].entries|
    else GroupSize(pm[1..], p)
  }

  function AlwaysApplyCount(rules: seq<RuleInfo>): nat {
    if |rules| == 0 then 0
    else AlwaysApplyCount(rules[..|rules| - 1]) + (if rules[|rules| - 1].alwaysApply then 1 else 0)
  }

  /** The advice for `total` rules, `always` always-apply ones, `low` little-used ones and `high` at priority 0 or 1. */
  function Advise(total: nat, always: nat, low: nat, high: nat): seq<Advice> {
    var advice := Warnings(total, always, low, high);
    if advice == [] then [SettingsAppropriate] else advice
  }

  /** The warnings among the advice, in report order. */
  function Warnings(total: nat, always: nat, low: nat, high: nat): seq<Advice> {
    (if total > MaxRules then [TooManyRules(total)] else [])
    + (if always > MaxAlwaysApplyAdvised then [TooManyAlwaysApplyRules(always)] else [])
    + (if low > MaxUnused then [ManyUnused(low)] else [])
    + (if high > MaxHighPriority then [CrowdedHighPriority(high)] else [])
  }

  /**
   * Each warning appears exactly when its threshold is exceeded, and the
   * settings are called appropriate exactly when none is.
   */
  lemma AdviseFires(total: nat, always: nat, low: nat, high: nat)
    ensures TooManyRules(total) in Advise(total, always, low, high) <==> total > MaxRules
    ensures TooManyAlwaysApplyRules(always) in Advise(total, always, low, high) <==> always > MaxAlwaysApplyAdvised
    ensures ManyUnused(low) in Advise(total, always, low, high) <==> low > MaxUnused
    ensures CrowdedHighPriority(high) in Advise(total, always, low, high) <==> high > MaxHighPriority
    ensures Advise(total, always, low, high) == [SettingsAppropriate] <==>
              total <= MaxRules && always <= MaxAlwaysApplyAdvised && low <= MaxUnused && high <= MaxHighPriority
  {
    var w := Warnings(total, always, low, high);
    var a := if total > MaxRules then [TooManyRules(total)] else [];
    var b := if always > MaxAlwaysApplyAdvised then [TooManyAlwaysApplyRules(always)] else [];
    var c := if low > MaxUnused then [ManyUnused(low)] else [];
    var d := if high > MaxHighPriority then [CrowdedHighPriority(high)] else [];
    assert w == a + b + c + d;
    assert forall x :: x in w <==> x in a || x in b || x in c || x in d;
    assert SettingsAppropriate !in w;
  }

  /** The recommendations of `generate_report`, computed from the manager's state. */
  function Recommendations(rules: seq<RuleInfo>, usage: map<string, Usage>, pm: seq<PriorityGroup>): seq<Advice> {
    Advise(|rules|, AlwaysApplyCount(rules), LowUsageCount(usage), GroupSize(pm, 0) + GroupSize(pm, 1))
  }

  /** In a map built from the rules, the group size of a priority is the number of rules that have it. */
  lemma {:induction false} GroupSizeIsCount(rules: seq<RuleInfo>, p: int)
    ensures GroupSize(PriorityMapOf(rules), p) == CountWithPriority(rules, p)
  {
    var keys := MapKeys(rules);
    var pm := PriorityMapOf(rules);
    if p in keys {
      var k :| 0 <= k < |keys| && keys[k] == p;
      GroupSizeAt(pm, k);
      EntriesCount(rules, p);
    } else {
      GroupSizeAbsent(pm, p);
      CountAbsent(rules, p);
    }
  }

  lemma {:induction false} GroupSizeAt(pm: seq<PriorityGroup>, k: nat)
    requires k < |pm|
    requires forall i, j :: 0 <= i < j < |pm| ==> pm[i].priority != pm[j].priority
    ensures GroupSize(pm, pm[k].priority) == |pm[k].entries|
  {
    if k > 0 {
      assert pm[0].priority != pm[k].priority;
      GroupSizeAt(pm[1..], k - 1);
    }
  }

  lemma {:induction false} GroupSizeAbsent(pm: seq<PriorityGroup>, p: int)
    requires forall k :: 0 <= k < |pm| ==> pm[k].priority != p
    ensures GroupSize(pm, p) == 0
  {
    if |pm| > 0 {
      GroupSizeAbsent(pm[1..], p);
    }
  }

  lemma {:induction false} CountAbsent(rules: seq<RuleInfo>, p: int)
    requires forall i :: 0 <= i < |rules| ==> rules[i].priority != p
    ensures CountWithPriority(rules, p) == 0
  {
    if |rules| > 0 {
      CountAbsent(rules[..|rules| - 1], p);
    }
  }

  // ---------------------------------------------------------------------
  // The manager
  // ---------------------------------------------------------------------

  class RulesManager {
    var rules: seq<RuleInfo>
    var conflicts: seq<Conflict>
    var usageStats: map<string, Usage>
    var priorityMap: seq<PriorityGroup>

    /** Scans the rule directory; everything else starts empty. */
    constructor (dir: Option<Dir>, listing: seq<string>)
      requires dir.Some? ==> IsListing(listing, dir.value)
      ensures rules == Scan(dir, listing)
      ensures conflicts == [] && usageStats == map[] && priorityMap == []
    {
      var scanned := ScanAllRules(dir, listing);
      rules := scanned;
      conflicts := [];
      usageStats := map[];
      priorityMap := [];
    }

    /** `detect_conflicts`: the four checks in order; the findings are stored and returned. */
    method DetectConflicts() returns (found: seq<Conflict>)
      modifies this
      ensures found == ConflictsOf(rules) && conflicts == found
      ensures rules == old(rules) && usageStats == old(usageStats) && priorityMap == old(priorityMap)
    {
      var rs := rules;
      var always := AlwaysApplyNames(rs);
      found := [];
      if |always| > MaxAlwaysApply {
        found := found + [TooManyAlwaysApply(|always|, always)];
      }
      assert found == AlwaysApplyFindings(rs);
      var overloads := PriorityOverloads(rs);
      found := found + overloads;
      var pairs := SimilarNamePairs(Names(rs), Jaccard);
      found := found + pairs;
      var zero := NamesWithPriority(rs, 0);
      var last := [];
      if |zero| > MaxPriorityZero {
        last := [TooManyPriorityZero(|zero|, zero)];
      }
      assert last == PriorityZeroFindings(rs);
      found := found + last;
      conflicts := found;
    }

    /**
     * `analyze_usage`: the usage estimate of every rule, stored and returned;
     * `None` when a degraded record has no modification time, in which case
     * the stored estimates stay as they were.
     */
    method AnalyzeUsage(now: int) returns (result: Option<map<string, Usage>>)
      modifies this
      ensures result.Some? <==> AllParsed(rules)
      ensures result.Some? ==> result.value == UsageOf(rules, now) && usageStats == result.value
      ensures result.None? ==> usageStats == old(usageStats)
      ensures rules == old(rules) && conflicts == old(conflicts) && priorityMap == old(priorityMap)
    {
      var usage: map<string, Usage> := map[];
      for i := 0 to |rules|
        invariant AllParsed(rules[..i])
        invariant usage == UsageOf(rules[..i], now)
      {
        var rule := rules[i];
        if rule.Degraded? {
          return None;
        }
        var days := DaysOld(now, rule.modified);
        assert rules[..i + 1][..i] == rules[..i];
        usage := usage[rule.name := Usage(Bucket(days), days)];
      }
      assert rules[..|rules|] == rules;
      usageStats := usage;
      result := Some(usage);
    }

    /** `generate_priority_map`: the rules grouped by priority, groups in ascending order; stored and returned. */
    method GeneratePriorityMap() returns (pm: seq<PriorityGroup>)
      modifies this
      ensures pm == PriorityMapOf(rules) && priorityMap == pm
      ensures rules == old(rules) && conflicts == old(conflicts) && usageStats == old(usageStats)
    {
      var order, groups := GroupByPriority(rules);
      var keys := SortKeys(order);
      pm := seq(|keys|, k requires 0 <= k < |keys| => PriorityGroup(keys[k], groups[keys[k]]));
      priorityMap := pm;
    }
  }

  /** The `defaultdict` of rule names per priority and the check of each group against the ceiling. */
  method PriorityOverloads(rules: seq<RuleInfo>) returns (found: seq<Conflict>)
    ensures found == OverloadFindings(rules, PriorityOrder(rules))
  {
    var order, groups := NamesByPriority(rules);
    found := [];
    for k := 0 to |order|
      invariant found == OverloadFindings(rules, order[..k])
    {
      var p := order[k];
      assert order[..k + 1][..k] == order[..k];
      if |groups[p]| > MaxPerPriority {
        found := found + [SamePriorityOverload(p, groups[p])];
      }
    }
    assert order[..|order|] == order;
  }

  /** The `defaultdict` loop: priorities in order of first appearance, and the names of their rules. */
  method NamesByPriority(rules: seq<RuleInfo>) returns (order: seq<int>, groups: map<int, seq<string>>)
    ensures order == PriorityOrder(rules)
    ensures forall p :: p in groups <==> p in order
    ensures forall p :: p in groups ==> groups[p] == NamesWithPriority(rules, p)
  {
    order := [];
    groups := map[];
    for i := 0 to |rules|
      invariant NamesGrouped(rules[..i], order, groups)
    {
      var p := rules[i].priority;
      NamesGroupedStep(rules, i, order, groups);
      if p in groups {
        groups := groups[p := groups[p] + [rules[i].name]];
      } else {
        order := order + [p];
        groups := groups[p := [rules[i].name]];
      }
    }
    assert rules[..|rules|] == rules;
  }

  /** `order` and `groups` hold the names of `rules` by priority, priorities in order of first appearance. */
  ghost predicate NamesGrouped(rules: seq<RuleInfo>, order: seq<int>, groups: map<int, seq<string>>) {
    && order == PriorityOrder(rules)
    && (forall p :: p in groups <==> p in order)
    && (forall p :: p in groups ==> groups[p] == NamesWithPriority(rules, p))
  }

  /** One turn of the `defaultdict` loop keeps the grouping. */
  lemma NamesGroupedStep(rules: seq<RuleInfo>, i: nat, order: seq<int>, groups: map<int, seq<string>>)
    requires i < |rules| && NamesGrouped(rules[..i], order, groups)
    ensures var p := rules[i].priority;
            if p in groups then NamesGrouped(rules[..i + 1], order, groups[p := groups[p] + [rules[i].name]])
            else NamesGrouped(rules[..i + 1], order + [p], groups[p := [rules[i].name]])
  {
    var p := rules[i].priority;
    assert rules[..i + 1][..i] == rules[..i];
    NamesWithPriorityStep(rules, i);
    if p !in groups {
      NamesWithPriorityAbsent(rules[..i], p);
    }
  }

  /** The nested loop over the pairs `i < j` of names, keeping those more than 80% similar under `sim`. */
  method SimilarNamePairs(names: seq<string>, sim: (string, string) -> Ratio) returns (pairs: seq<Conflict>)
    ensures pairs == NameFindings(names, sim, |names|)
  {
    pairs := [];
    for i := 0 to |names|
      invariant pairs == NameFindings(names, sim, i)
    {
      for j := i + 1 to |names|
        invariant pairs == NameFindings(names, sim, i) + Row(names, sim, i, j)
      {
        var similarity := sim(names[i], names[j]);
        if Exceeds(similarity) {
          pairs := pairs + [SimilarNames(names[i], names[j], similarity)];
        }
      }
    }
  }

  /** The grouping loop of `generate_priority_map`: priorities in order of first appearance, and their entries. */
  method GroupByPriority(rules: seq<RuleInfo>) returns (order: seq<int>, groups: map<int, seq<PriorityEntry>>)
    ensures order == PriorityOrder(rules)
    ensures forall p :: p in groups <==> p in order
    ensures forall p :: p in groups ==> groups[p] == EntriesWithPriority(rules, p)
  {
    order := [];
    groups := map[];
    for i := 0 to |rules|
      invariant Grouped(rules[..i], order, groups)
    {
      var p := rules[i].priority;
      GroupedStep(rules, i, order, groups);
      if p in groups {
        groups := groups[p := groups[p] + [EntryOf(rules[i])]];
      } else {
        order := order + [p];
        groups := groups[p := [EntryOf(rules[i])]];
      }
    }
    assert rules[..|rules|] == rules;
  }

  /** `order` and `groups` hold the entries of `rules` by priority, priorities in order of first appearance. */
  ghost predicate Grouped(rules: seq<RuleInfo>, order: seq<int>, groups: map<int, seq<PriorityEntry>>) {
    && order == PriorityOrder(rules)
    && (forall p :: p in groups <==> p in order)
    && (forall p :: p in groups ==> groups[p] == EntriesWithPriority(rules, p))
  }

  /** One turn of the grouping loop keeps the grouping. */
  lemma GroupedStep(rules: seq<RuleInfo>, i: nat, order: seq<int>, groups: map<int, seq<PriorityEntry>>)
    requires i < |rules| && Grouped(rules[..i], order, groups)
    ensures var p := rules[i].priority;
            if p in groups then Grouped(rules[..i + 1], order, groups[p := groups[p] + [EntryOf(rules[i])]])
            else Grouped(rules[..i + 1], order + [p], groups[p := [EntryOf(rules[i])]])
  {
    var p := rules[i].priority;
    assert rules[..i + 1][..i] == rules[..i];
    EntriesWithPriorityStep(rules, i);
    if p !in groups {
      EntriesWithPriorityAbsent(rules[..i], p);
    }
  }
}
