/**
 * The optimisation plan drawn from the exported analysis of the rule
 * directory: the priority-0 rules are sorted into categories by name, with
 * merge and demotion advice, and the always-apply rules are split into those
 * that stay always-apply, those to turn into intelligent rules and those to
 * turn into file-specific rules.
 */
module OptimizationPlan {
  import opened Wrappers
  import opened Text
  import opened Diagnostics

  // ---------------------------------------------------------------------
  // Categories of the priority-0 rules
  // ---------------------------------------------------------------------

  datatype Category =
    | Layer0                 // "Layer 0 (자율 시스템)"
    | Critical               // "Critical (필수 실행)"
    | EnvironmentIndependence
    | McpMandatory
    | RulesManagement
    | SshSecurity
    | EnvironmentVariables
    | VerificationRequired
    | DateValidation
    | Other                  // "기타"

  /** The category of a rule name: the first test, in the order below, that the lower-cased name passes. */
  function Classify(name: string): Category {
    var n := Lower(name);
    if Contains(n, "layer0") || Contains(n, "autonomous") then Layer0
    else if Contains(n, "critical") || Contains(n, "auto-execution") then Critical
    else if Contains(n, "f-drive") || Contains(n, "independence") then EnvironmentIndependence
    else if Contains(n, "mcp") || Contains(n, "mandatory") then McpMandatory
    else if Contains(n, "rules-priority") || Contains(n, "enforcement") then RulesManagement
    else if Contains(n, "ssh") || Contains(n, "key") then SshSecurity
    else if Contains(n, "subprocess") || Contains(n, "env") then EnvironmentVariables
    else if Contains(n, "korean-medicine") || Contains(n, "verification") then VerificationRequired
    else if Contains(n, "date") || Contains(n, "validation") then DateValidation
    else Other
  }

  /** The two substrings each category tests for (none for `Other`). */
  function Needles(c: Category): seq<string> {
    match c
    case Layer0 => ["layer0", "autonomous"]
    case Critical => ["critical", "auto-execution"]
    case EnvironmentIndependence => ["f-drive", "independence"]
    case McpMandatory => ["mcp", "mandatory"]
    case RulesManagement => ["rules-priority", "enforcement"]
    case SshSecurity => ["ssh", "key"]
    case EnvironmentVariables => ["subprocess", "env"]
    case VerificationRequired => ["korean-medicine", "verification"]
    case DateValidation => ["date", "validation"]
    case Other => []
  }

  /** The position of a category's test in the chain. */
  function Rank(c: Category): nat {
    match c
    case Layer0 => 0
    case Critical => 1
    case EnvironmentIndependence => 2
    case McpMandatory => 3
    case RulesManagement => 4
    case SshSecurity => 5
    case EnvironmentVariables => 6
    case VerificationRequired => 7
    case DateValidation => 8
    case Other => 9
  }

  /** The lower-cased name contains one of the category's substrings. */
  predicate Passes(name: string, c: Category) {
    c != Other && (Contains(Lower(name), Needles(c)[0]) || Contains(Lower(name), Needles(c)[1]))
  }

  /**
   * The category is the first one whose test the name passes: it passes the
   * test of its own category (unless that is `Other`) and fails every
   * earlier one, and it is `Other` exactly when it passes no test.
   */
  lemma ClassifyIsFirstMatch(name: string)
    ensures Classify(name) != Other ==> Passes(name, Classify(name))
    ensures forall c :: Rank(c) < Rank(Classify(name)) ==> !Passes(name, c)
    ensures Classify(name) == Other <==> forall c :: !Passes(name, c)
  {
    var r := Classify(name);
    forall c | Rank(c) <= Rank(r)
      ensures Passes(name, c) <==> c == r && r != Other
    {
      match c
      case Layer0 =>
      case Critical =>
      case EnvironmentIndependence =>
      case McpMandatory =>
      case RulesManagement =>
      case SshSecurity =>
      case EnvironmentVariables =>
      case VerificationRequired =>
      case DateValidation =>
      case Other =>
    }
  }

  // ---------------------------------------------------------------------
  // The priority-0 analysis
  // ---------------------------------------------------------------------

  /** `[r for r in data['rules'] if r.get('priority') == 0]`. */
  function PriorityZeroRules(rules: seq<RuleInfo>): (r: seq<RuleInfo>)
    ensures forall x :: x in r <==> x in rules && x.priority == 0
    ensures |r| <= |rules|
  {
    if |rules| == 0 then []
    else
      var init := rules[..|rules| - 1];
      var last := rules[|rules| - 1];
      assert forall x :: x in rules <==> x in init || x == last;
      PriorityZeroRules(init) + if last.priority == 0 then [last] else []
  }

  /** A way of putting rule names into categories. */
  type Classifier = string -> Category

  /** The rules of `rs` in category `c`, in order: `categories[c]`. */
  function InCategory(rs: seq<RuleInfo>, c: Category, cls: Classifier): (r: seq<RuleInfo>)
    ensures |r| <= |rs|
  {
    if |rs| == 0 then []
    else
      var init := rs[..|rs| - 1];
      var last := rs[|rs| - 1];
      InCategory(init, c, cls) + if cls(last.name) == c then [last] else []
  }

  /** The keys of the `defaultdict`: categories in order of first appearance. */
  function CategoryOrder(rs: seq<RuleInfo>, cls: Classifier): (r: seq<Category>)
    ensures Distinct(r)
  {
    if |rs| == 0 then []
    else
      var init := rs[..|rs| - 1];
      var last := rs[|rs| - 1];
      var prev := CategoryOrder(init, cls);
      if cls(last.name) in prev then prev else prev + [cls(last.name)]
  }

  /** `{k: len(v) for k, v in categories.items()}` over the categories `order`. */
  function Tally(order: seq<Category>, rs: seq<RuleInfo>, cls: Classifier): (t: seq<(Category, nat)>)
    ensures |t| == |order|
  {
    if |order| == 0 then []
    else
      var c := order[|order| - 1];
      Tally(order[..|order| - 1], rs, cls) + [(c, |InCategory(rs, c, cls)|)]
  }

  /** The sum of the counts of a tally. */
  function Total(t: seq<(Category, nat)>): nat {
    if |t| == 0 then 0 else Total(t[..|t| - 1]) + t[|t| - 1].1
  }

  /** The categories and their counts of the priority-0 rules `p0`. */
  function CategoryCounts(p0: seq<RuleInfo>): seq<(Category, nat)> {
    Tally(CategoryOrder(p0, Classify), p0, Classify)
  }

  /** File names of the priority-0 rules that stay at priority 0. */
  const KeepPriorityZero: seq<string> := [
    "f-drive-absolute-independence.mdc",
    "rules-priority-enforcement.mdc",
    "CRITICAL-AUTO-EXECUTION.mdc",
    "mcp-auto-execution-enforcement.mdc"
  ]

  /** The advice of the priority-0 analysis. */
  datatype Advice =
    | MergeLayer0(count: nat)           // merge the layer-0 rules into one file
    | MergeCritical(count: nat)         // merge the critical rules into one file
    | DemoteToOne(names: seq<string>)   // move these rules from priority 0 to 1

  /** `move_to_1`: the names of the priority-0 rules outside the keep list, in order. */
  function MoveToOne(p0: seq<RuleInfo>): (names: seq<string>)
    ensures |names| <= |p0|
  {
    if |p0| == 0 then []
    else
      var last := p0[|p0| - 1];
      MoveToOne(p0[..|p0| - 1]) + if last.name in KeepPriorityZero then [] else [last.name]
  }

  /** `move_to_1` keeps the order of the priority-0 rules. */
  lemma {:induction false} MoveToOneInOrder(p0: seq<RuleInfo>)
    ensures MoveToOne(p0) == Select(Names(p0), n => n !in KeepPriorityZero)
  {
    if |p0| > 0 {
      MoveToOneInOrder(p0[..|p0| - 1]);
      assert Names(p0)[..|p0| - 1] == Names(p0[..|p0| - 1]);
    }
  }

  /** The advice on the priority-0 rules `p0`, given the sizes of their layer-0 and critical categories. */
  function Priority0Advice(p0: seq<RuleInfo>, layer0: nat, critical: nat): seq<Advice> {
    (if layer0 > 3 then [MergeLayer0(layer0)] else [])
    + (if critical > 1 then [MergeCritical(critical)] else [])
    + (if |p0| > 10 then [DemoteToOne(MoveToOne(p0))] else [])
  }

  /** What `analyze_priority_0_rules` returns. */
  datatype Priority0Analysis = Priority0Analysis(total: nat, categories: seq<(Category, nat)>, advice: seq<Advice>)

  function Priority0Of(rules: seq<RuleInfo>): Priority0Analysis {
    var p0 := PriorityZeroRules(rules);
    Priority0Analysis(|p0|, CategoryCounts(p0),
                      Priority0Advice(p0, |InCategory(p0, Layer0, Classify)|, |InCategory(p0, Critical, Classify)|))
  }

  /** `categories` and its key order after the rules `rs`. */
  ghost predicate Categorized(rs: seq<RuleInfo>, cls: Classifier, order: seq<Category>, groups: map<Category, seq<RuleInfo>>) {
    && order == CategoryOrder(rs, cls)
    && (forall c :: c in groups <==> c in order)
    && (forall c :: c in groups ==> groups[c] == InCategory(rs, c, cls))
  }

  /** `analyze_priority_0_rules`: the category loop over the priority-0 rules, then the advice. */
  method AnalyzePriority0Rules(rules: seq<RuleInfo>) returns (a: Priority0Analysis)
    ensures a == Priority0Of(rules)
  {
    var p0 := PriorityZeroRules(rules);
    var order, groups := CategorizeRules(p0, Classify);
    var counts := seq(|order|, k requires 0 <= k < |order| && order[k] in groups => (order[k], |groups[order[k]]|));
    TallyAt(order, p0, Classify);
    assert counts == Tally(order, p0, Classify);
    var layer0 := if Layer0 in groups then |groups[Layer0]| else 0;
    var critical := if Critical in groups then |groups[Critical]| else 0;
    if Layer0 !in groups {
      InCategoryAbsent(p0, Layer0, Classify);
    }
    if Critical !in groups {
      InCategoryAbsent(p0, Critical, Classify);
    }
    assert layer0 == |InCategory(p0, Layer0, Classify)| && critical == |InCategory(p0, Critical, Classify)|;
    var advice := Priority0Advice(p0, layer0, critical);
    a := Priority0Analysis(|p0|, counts, advice);
  }

  /** The category loop: `categories[category].append(rule)` for each rule in turn. */
  method CategorizeRules(rs: seq<RuleInfo>, cls: Classifier) returns (order: seq<Category>, groups: map<Category, seq<RuleInfo>>)
    ensures Categorized(rs, cls, order, groups)
  {
    order := [];
    groups := map[];
    for i := 0 to |rs|
      invariant Categorized(rs[..i], cls, order, groups)
    {
      var c := cls(rs[i].name);
      if c in groups {
        CategorizedAppend(rs, cls, i, order, groups);
        groups := groups[c := groups[c] + [rs[i]]];
      } else {
        CategorizedNew(rs, cls, i, order, groups);
        order := order + [c];
        groups := groups[c := [rs[i]]];
      }
    }
    assert rs[..|rs|] == rs;
  }

  /** A turn of the category loop on a category already seen appends the rule to its list. */
  lemma CategorizedAppend(rs: seq<RuleInfo>, cls: Classifier, i: nat, order: seq<Category>, groups: map<Category, seq<RuleInfo>>)
    requires i < |rs| && Categorized(rs[..i], cls, order, groups) && cls(rs[i].name) in groups
    ensures Categorized(rs[..i + 1], cls, order, groups[cls(rs[i].name) := groups[cls(rs[i].name)] + [rs[i]]])
  {
    assert rs[..i + 1] == rs[..i] + [rs[i]];
  }

  /** A turn of the category loop on a new category adds it as the last key, with the rule alone. */
  lemma CategorizedNew(rs: seq<RuleInfo>, cls: Classifier, i: nat, order: seq<Category>, groups: map<Category, seq<RuleInfo>>)
    requires i < |rs| && Categorized(rs[..i], cls, order, groups) && cls(rs[i].name) !in groups
    ensures Categorized(rs[..i + 1], cls, order + [cls(rs[i].name)], groups[cls(rs[i].name) := [rs[i]]])
  {
    assert rs[..i + 1] == rs[..i] + [rs[i]];
    InCategoryAbsent(rs[..i], cls(rs[i].name), cls);
  }

  /** A category no rule falls in has no rules. */
  lemma {:induction false} InCategoryAbsent(rs: seq<RuleInfo>, c: Category, cls: Classifier)
    requires c !in CategoryOrder(rs, cls)
    ensures InCategory(rs, c, cls) == []
  {
    if |rs| > 0 {
      InCategoryAbsent(rs[..|rs| - 1], c, cls);
    }
  }

  /** The list of a category holds exactly the rules that fall in it. */
  lemma {:induction false} InCategoryMembers(rs: seq<RuleInfo>, c: Category, cls: Classifier, x: RuleInfo)
    ensures x in InCategory(rs, c, cls) <==> x in rs && cls(x.name) == c
  {
    if |rs| > 0 {
      var init := rs[..|rs| - 1];
      InCategoryMembers(init, c, cls, x);
      assert x in rs <==> x in init || x == rs[|rs| - 1];
    }
  }

  /** The keys of `categories` are exactly the categories some rule falls in. */
  lemma {:induction false} CategoryOrderMembers(rs: seq<RuleInfo>, c: Category, cls: Classifier)
    ensures c in CategoryOrder(rs, cls) <==> exists x :: x in rs && cls(x.name) == c
  {
    if |rs| > 0 {
      var init := rs[..|rs| - 1];
      var last := rs[|rs| - 1];
      CategoryOrderMembers(init, c, cls);
      assert forall x :: x in rs <==> x in init || x == last;
    }
  }

  /** Each entry of a tally is its category with the number of rules in it. */
  lemma {:induction false} TallyAt(order: seq<Category>, rs: seq<RuleInfo>, cls: Classifier)
    ensures forall k :: 0 <= k < |order| ==> Tally(order, rs, cls)[k] == (order[k], |InCategory(rs, order[k], cls)|)
  {
    if |order| > 0 {
      var init := order[..|order| - 1];
      TallyAt(init, rs, cls);
      assert forall k :: 0 <= k < |init| ==> init[k] == order[k];
    }
  }

  /**
   * Every priority-0 rule is counted in exactly one category: the counts
   * add up to the number of priority-0 rules.
   */
  lemma CategoryCountsSum(p0: seq<RuleInfo>)
    ensures Total(CategoryCounts(p0)) == |p0|
  {
    forall i | 0 <= i < |p0|
      ensures Classify(p0[i].name) in CategoryOrder(p0, Classify)
    {
      CategoryOrderMembers(p0, Classify(p0[i].name), Classify);
    }
    TallyTotal(CategoryOrder(p0, Classify), p0, Classify);
  }

  lemma {:induction false} TallyTotal(order: seq<Category>, rs: seq<RuleInfo>, cls: Classifier)
    requires Distinct(order) && forall i :: 0 <= i < |rs| ==> cls(rs[i].name) in order
    ensures Total(Tally(order, rs, cls)) == |rs|
  {
    if |rs| == 0 {
      TallyEmpty(order, rs, cls);
    } else {
      var init := rs[..|rs| - 1];
      var last := rs[|rs| - 1];
      TallyTotal(order, init, cls);
      TallyStep(order, init, cls, last);
      assert init + [last] == rs;
    }
  }

  lemma {:induction false} TallyEmpty(order: seq<Category>, rs: seq<RuleInfo>, cls: Classifier)
    requires |rs| == 0
    ensures Total(Tally(order, rs, cls)) == 0
  {
    if |order| > 0 {
      TallyEmpty(order[..|order| - 1], rs, cls);
    }
  }

  /** One more rule adds one to the count of its category, when that category is listed once. */
  lemma {:induction false} TallyStep(order: seq<Category>, rs: seq<RuleInfo>, cls: Classifier, x: RuleInfo)
    requires Distinct(order)
    ensures Total(Tally(order, rs + [x], cls)) == Total(Tally(order, rs, cls)) + if cls(x.name) in order then 1 else 0
  {
    if |order| > 0 {
      var init := order[..|order| - 1];
      var c := order[|order| - 1];
      assert forall k :: 0 <= k < |init| ==> init[k] == order[k];
      assert cls(x.name) in order <==> cls(x.name) in init || cls(x.name) == c;
      assert cls(x.name) == c ==> cls(x.name) !in init;
      TallyStep(init, rs, cls, x);
      assert (rs + [x])[..|rs|] == rs;
    }
  }

  /**
   * The priority-0 advice: each piece appears exactly when its threshold is
   * exceeded, and carries the count or the names it is about.
   */
  lemma Priority0AdviceFires(p0: seq<RuleInfo>, layer0: nat, critical: nat)
    ensures MergeLayer0(layer0) in Priority0Advice(p0, layer0, critical) <==> layer0 > 3
    ensures MergeCritical(critical) in Priority0Advice(p0, layer0, critical) <==> critical > 1
    ensures DemoteToOne(MoveToOne(p0)) in Priority0Advice(p0, layer0, critical) <==> |p0| > 10
    ensures forall v :: v in Priority0Advice(p0, layer0, critical) ==>
              match v
              case MergeLayer0(n) => n == layer0 && layer0 > 3
              case MergeCritical(n) => n == critical && critical > 1
              case DemoteToOne(names) => names == MoveToOne(p0) && |p0| > 10
  {
    var a: seq<Advice> := if layer0 > 3 then [MergeLayer0(layer0)] else [];
    var b: seq<Advice> := if critical > 1 then [MergeCritical(critical)] else [];
    var d: seq<Advice> := if |p0| > 10 then [DemoteToOne(MoveToOne(p0))] else [];
    assert Priority0Advice(p0, layer0, critical) == a + b + d;
    forall v | v in a + b + d
      ensures match v
              case MergeLayer0(n) => n == layer0 && layer0 > 3
              case MergeCritical(n) => n == critical && critical > 1
              case DemoteToOne(names) => names == MoveToOne(p0) && |p0| > 10
    {
      assert v in a || v in b || v in d;
    }
  }

  /** `move_to_1` is exactly the priority-0 rules outside the keep list, in their order. */
  lemma {:induction false} MoveToOneMembers(p0: seq<RuleInfo>, name: string)
    ensures name in MoveToOne(p0) <==> name !in KeepPriorityZero && exists x :: x in p0 && x.name == name
  {
    if |p0| > 0 {
      var init := p0[..|p0| - 1];
      var last := p0[|p0| - 1];
      MoveToOneMembers(init, name);
      assert forall x :: x in p0 <==> x in init || x == last;
      if name !in KeepPriorityZero && name !in MoveToOne(init) && last.name == name {
        assert name in MoveToOne(p0);
      }
    }
  }

  // ---------------------------------------------------------------------
  // The always-apply analysis
  // ---------------------------------------------------------------------

  /** The names of the always-apply rules that stay always-apply (at priority 0 or 1). */
  const KeepAlwaysNames: seq<string> := [
    "f-drive-absolute-independence.mdc",
    "rules-priority-enforcement.mdc",
    "CRITICAL-AUTO-EXECUTION.mdc",
    "mcp-auto-execution-enforcement.mdc",
    "layer0-autonomous-brain.mdc",
    "global.mdc",
    "company-environment-mcp-mandatory.mdc"
  ]

  /** `r.get('globs')` is truthy: a parsed record with a non-empty `globs` value. */
  predicate HasGlobs(r: RuleInfo) {
    r.Parsed? && r.globs != ""
  }

  predicate IsAlwaysApply(r: RuleInfo) {
    r.alwaysApply
  }

  predicate Kept(r: RuleInfo) {
    (r.priority == 0 || r.priority == 1) && r.name in KeepAlwaysNames
  }

  function KeepAlways(always: seq<RuleInfo>): seq<RuleInfo> {
    Select(always, Kept)
  }

  function ToIntelligent(always: seq<RuleInfo>, keep: seq<RuleInfo>): seq<RuleInfo> {
    Select(always, r => r !in keep && (r.priority == 1 || r.priority == 2))
  }

  function ToFileSpecific(always: seq<RuleInfo>, keep: seq<RuleInfo>): seq<RuleInfo> {
    Select(always, r => r !in keep && r.priority >= 2 && HasGlobs(r))
  }

  /** What `analyze_always_apply_rules` returns: the four counts (its two recommendations repeat the last two). */
  datatype AlwaysApplyAnalysis = AlwaysApplyAnalysis(total: nat, keep: nat, toIntelligent: nat, toFileSpecific: nat)

  function AlwaysApplyOf(rules: seq<RuleInfo>): AlwaysApplyAnalysis {
    var always := Select(rules, IsAlwaysApply);
    var keep := KeepAlways(always);
    AlwaysApplyAnalysis(|always|, |keep|, |ToIntelligent(always, keep)|, |ToFileSpecific(always, keep)|)
  }

  /**
   * The partition of the always-apply rules: a kept rule is in neither
   * change list, nor is a priority-0 rule that is not kept; a priority-1
   * rule that is not kept is to become intelligent; a priority-2 rule with
   * globs that is not kept is in both lists; and no count exceeds the total.
   */
  lemma AlwaysApplyPartition(rules: seq<RuleInfo>, r: RuleInfo)
    requires r in rules && r.alwaysApply
    ensures var always := Select(rules, IsAlwaysApply);
            var keep := KeepAlways(always);
            && (r in keep <==> Kept(r))
            && (r in keep ==> r !in ToIntelligent(always, keep) && r !in ToFileSpecific(always, keep))
            && (!Kept(r) && r.priority == 0 ==> r !in ToIntelligent(always, keep) && r !in ToFileSpecific(always, keep))
            && (!Kept(r) && r.priority == 1 ==> r in ToIntelligent(always, keep) && r !in ToFileSpecific(always, keep))
            && (!Kept(r) && r.priority == 2 && HasGlobs(r) ==> r in ToIntelligent(always, keep) && r in ToFileSpecific(always, keep))
  {
  }

  /** The counts of the always-apply analysis never exceed its total. */
  lemma AlwaysApplyCounts(rules: seq<RuleInfo>)
    ensures var a := AlwaysApplyOf(rules);
            a.keep <= a.total && a.toIntelligent <= a.total && a.toFileSpecific <= a.total && a.total <= |rules|
  {
  }

  // ---------------------------------------------------------------------
  // The plan
  // ---------------------------------------------------------------------

  /** The exported analysis the plan reads: the rule count and the rule records. */
  datatype Analysis = Analysis(totalRules: nat, rules: seq<RuleInfo>)

  /** Rules the plan reports as archived by its first step, a fixed figure. */
  const ArchivedInStep1: nat := 3

  datatype Plan = Plan(totalRules: nat, alwaysApplyCount: nat, priority0Count: nat, archived: nat,
                       priority0Advice: seq<Advice>, keep: nat, toIntelligent: nat, toFileSpecific: nat)

  function PlanOf(data: Analysis): Plan {
    var p0 := Priority0Of(data.rules);
    var aa := AlwaysApplyOf(data.rules);
    Plan(data.totalRules, aa.total, p0.total, ArchivedInStep1, p0.advice, aa.keep, aa.toIntelligent, aa.toFileSpecific)
  }

  /**
   * `generate_optimization_plan`: `analysis` is what `load_analysis` reads,
   * `None` when the analysis file is missing; then there is no plan.
   */
  method GenerateOptimizationPlan(analysis: Option<Analysis>) returns (plan: Option<Plan>)
    ensures plan.None? <==> analysis.None?
    ensures plan.Some? ==> plan.value == PlanOf(analysis.value)
    ensures plan.Some? ==> plan.value.priority0Count == |PriorityZeroRules(analysis.value.rules)|
                           && plan.value.alwaysApplyCount == |Select(analysis.value.rules, IsAlwaysApply)|
  {
    if analysis.None? {
      return None;
    }
    var data := analysis.value;
    var p0 := AnalyzePriority0Rules(data.rules);
    var aa := AlwaysApplyOf(data.rules);
    plan := Some(Plan(data.totalRules, aa.total, p0.total, ArchivedInStep1, p0.advice, aa.keep, aa.toIntelligent,
                      aa.toFileSpecific));
  }
}
