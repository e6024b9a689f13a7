/**
 * The diagnostics manager of the rule directory: it reads every rule file
 * into a record, detects conflicts (too many always-apply rules, crowded
 * priorities, near-duplicate names, too many priority-0 rules), estimates
 * usage from modification times, groups the rules by priority and derives
 * the report's recommendations.
 */
module Diagnostics {
  import opened Wrappers
  import opened Text
  import opened Header
  import opened Similarity
  import opened Files

  /** Priority of a rule whose header gives none, or none that is an integer. */
  const DefaultPriority: int := 5

  /** The record `parse_rule_file` returns: a parsed rule, or the degraded record of a file it could not read. */
  datatype RuleInfo =
    | Parsed(name: string, path: string, size: nat, modified: int, priority: int, alwaysApply: bool,
             description: string, globs: string, ruleType: string, tags: string, contentLines: nat,
             metadata: map<string, string>)
    | Degraded(name: string, error: string, priority: int, alwaysApply: bool)

  /** `metadata.get(key, "")`. */
  function Get(md: map<string, string>, key: string): string {
    if key in md then md[key] else ""
  }

  /** The priority a header gives: `int(value)` where that succeeds, the default otherwise. */
  function PriorityOf(md: map<string, string>): (p: int)
    ensures "priority" !in md || ParseInt(md["priority"]).None? ==> p == DefaultPriority
    ensures "priority" in md && ParseInt(md["priority"]).Some? ==> p == ParseInt(md["priority"]).value
  {
    if "priority" in md && ParseInt(md["priority"]).Some? then ParseInt(md["priority"]).value
    else DefaultPriority
  }

  /** A `priority` value that is an integer written out, with any whitespace around it, is that integer. */
  lemma PriorityOfWritten(md: map<string, string>, n: int, pre: string, post: string)
    requires AllSpace(pre) && AllSpace(post)
    requires "priority" in md && md["priority"] == pre + DecimalText(n) + post
    ensures PriorityOf(md) == n
  {
    ParseIntDecimal(n, pre, post);
  }

  /** A missing `priority` value, or one without a digit, gives the default priority 5. */
  lemma PriorityOfUnwritten(md: map<string, string>)
    requires "priority" in md ==> forall c :: c in md["priority"] ==> !IsDigit(c)
    ensures PriorityOf(md) == DefaultPriority
  {
    if "priority" in md {
      ParseIntNoDigit(md["priority"]);
    }
  }

  /** A rule applies always exactly when its `alwaysApply` value lowercases to "true". */
  predicate AlwaysApplyOf(md: map<string, string>) {
    "alwaysApply" in md && Lower(md["alwaysApply"]) == "true"
  }

  /** The record for the file `name` with directory entry `entry`. */
  function ParseRule(name: string, entry: FileEntry): RuleInfo {
    match entry.content
    case ReadError(msg) => Degraded(name, msg, DefaultPriority, false)
    case Contents(text) =>
      var md := Metadata(text);
      Parsed(name, RulesDirPath + name, entry.size, entry.mtime, PriorityOf(md), AlwaysApplyOf(md),
             Get(md, "description"), Get(md, "globs"), Get(md, "type"), Get(md, "tags"),
             |Split(text, '\n')|, md)
  }

  /** The metadata step of `parse_rule_file`: empty unless the text has a complete header block. */
  method ReadMetadata(text: string) returns (metadata: map<string, string>)
    ensures metadata == Metadata(text)
  {
    metadata := map[];
    var fm := FrontMatter(text);
    if fm.Some? {
      metadata := ReadHeader(fm.value.0);
    }
  }

  /** The header loop: each line with a ':' sets its key to its value. */
  method ReadHeader(header: string) returns (metadata: map<string, string>)
    ensures metadata == HeaderMap(Split(header, '\n'))
  {
    metadata := map[];
    var lines := Split(header, '\n');
    ghost var pairs := ParsedLines(lines);
    var i := 0;
    while i < |lines|
      invariant 0 <= i <= |lines|
      invariant metadata == Assign(pairs[..i])
    {
      AssignStep(pairs, i);
      var kv := KeyValue(lines[i]);
      if kv.Some? {
        metadata := metadata[kv.value.0 := kv.value.1];
      }
      i := i + 1;
    }
    assert pairs[..|lines|] == pairs;
  }

  /** `parse_rule_file`: a degraded record when the file cannot be read, the parsed record otherwise. */
  method ParseRuleFile(name: string, entry: FileEntry) returns (r: RuleInfo)
    ensures r == ParseRule(name, entry)
  {
    match entry.content
    case ReadError(msg) =>
      r := Degraded(name, msg, DefaultPriority, false);
    case Contents(text) =>
      var metadata := ReadMetadata(text);
      var priority := DefaultPriority;
      if "priority" in metadata {
        match ParseInt(metadata["priority"])
        case Some(v) => priority := v;
        case None => priority := DefaultPriority;
      }
      var alwaysApply := false;
      if "alwaysApply" in metadata {
        alwaysApply := Lower(metadata["alwaysApply"]) == "true";
      }
      r := Parsed(name, RulesDirPath + name, entry.size, entry.mtime, priority, alwaysApply,
                  Get(metadata, "description"), Get(metadata, "globs"), Get(metadata, "type"),
                  Get(metadata, "tags"), |Split(text, '\n')|, metadata);
  }

  /** A file that cannot be read still yields a record: degraded, priority 5, not always-apply. */
  lemma UnreadableFileDegrades(name: string, entry: FileEntry)
    ensures ParseRule(name, entry).Degraded? <==> entry.content.ReadError?
    ensures ParseRule(name, entry).Degraded? ==>
              ParseRule(name, entry).priority == DefaultPriority && !ParseRule(name, entry).alwaysApply
    ensures ParseRule(name, entry).name == name
  {
  }

  /** A file without a complete header block gets every default. */
  lemma NoHeaderDefaults(name: string, entry: FileEntry)
    requires entry.content.Contents?
    requires !StartsWith(entry.content.text, Delimiter)
    ensures var r := ParseRule(name, entry);
            r.Parsed? && r.metadata == map[] && r.priority == DefaultPriority && !r.alwaysApply && r.description == ""
  {
  }

  /**
   * The priority of a parsed rule is the integer on the last header line
   * that sets `priority`, when it is one.
   */
  lemma PriorityFromLastLine(name: string, entry: FileEntry, header: string, body: string, i: nat, v: int)
    requires entry.content == Contents(Delimiter + header + Delimiter + body)
    requires !Contains(header, Delimiter) && !EndsWith(header, "-")
    requires i < |Split(header, '\n')|
    requires Sets(ParsedLines(Split(header, '\n'))[i], "priority")
    requires forall j :: i < j < |Split(header, '\n')| ==> !Sets(ParsedLines(Split(header, '\n'))[j], "priority")
    requires ParseInt(ParsedLines(Split(header, '\n'))[i].value.1) == Some(v)
    ensures ParseRule(name, entry).priority == v
  {
    FrontMatterOfBlock(header, body);
    HeaderMapLastWins(Split(header, '\n'), "priority", i);
  }

  // ---------------------------------------------------------------------
  // Conflict detection
  // ---------------------------------------------------------------------

  /** More always-apply rules than this overload the context. */
  const MaxAlwaysApply: nat := 10
  /** More rules than this at one priority make the order unclear. */
  const MaxPerPriority: nat := 15
  /** More priority-0 rules than this dilute the top priority. */
  const MaxPriorityZero: nat := 10

  datatype Severity = High | Medium | Low

  datatype Conflict =
    | TooManyAlwaysApply(count: nat, rules: seq<string>)
    | SamePriorityOverload(priority: int, rules: seq<string>)
    | SimilarNames(first: string, second: string, similarity: Ratio)
    | TooManyPriorityZero(count: nat, rules: seq<string>)

  function SeverityOf(c: Conflict): Severity {
    match c
    case TooManyAlwaysApply(_, _) => High
    case SamePriorityOverload(_, _) => Medium
    case SimilarNames(_, _, _) => Low
    case TooManyPriorityZero(_, _) => High
  }

  /** Position of a kind of finding in the report: the four checks run in this order. */
  function Rank(c: Conflict): nat {
    match c
    case TooManyAlwaysApply(_, _) => 0
    case SamePriorityOverload(_, _) => 1
    case SimilarNames(_, _, _) => 2
    case TooManyPriorityZero(_, _) => 3
  }

  function Names(rules: seq<RuleInfo>): (r: seq<string>)
    ensures |r| == |rules| && forall i :: 0 <= i < |rules| ==> r[i] == rules[i].name
  {
    seq(|rules|, i requires 0 <= i < |rules| => rules[i].name)
  }

  /** The names of the always-apply rules, in rule order. */
  function AlwaysApplyNames(rules: seq<RuleInfo>): (r: seq<string>)
    ensures |r| <= |rules|
    ensures forall n :: n in r <==> exists i :: 0 <= i < |rules| && rules[i].alwaysApply && rules[i].name == n
  {
    if |rules| == 0 then []
    else
      var last := rules[|rules| - 1];
      var prev := AlwaysApplyNames(rules[..|rules| - 1]);
      assert forall i :: 0 <= i < |rules| - 1 ==> rules[..|rules| - 1][i] == rules[i];
      if last.alwaysApply then prev + [last.name] else prev
  }

  /** The names of the rules with priority `p`, in rule order. */
  function NamesWithPriority(rules: seq<RuleInfo>, p: int): (r: seq<string>)
    ensures |r| <= |rules|
    ensures forall n :: n in r <==> exists i :: 0 <= i < |rules| && rules[i].priority == p && rules[i].name == n
  {
    if |rules| == 0 then []
    else
      var last := rules[|rules| - 1];
      var prev := NamesWithPriority(rules[..|rules| - 1], p);
      assert forall i :: 0 <= i < |rules| - 1 ==> rules[..|rules| - 1][i] == rules[i];
      if last.priority == p then prev + [last.name] else prev
  }

  /** One more rule adds its name to the group of its priority and to no other. */
  lemma NamesWithPriorityStep(rules: seq<RuleInfo>, i: nat)
    requires i < |rules|
    ensures forall p :: NamesWithPriority(rules[..i + 1], p)
                        == NamesWithPriority(rules[..i], p) + (if rules[i].priority == p then [rules[i].name] else [])
  {
    assert rules[..i + 1][..i] == rules[..i];
  }

  /** A priority no rule has has no names. */
  lemma {:induction false} NamesWithPriorityAbsent(rules: seq<RuleInfo>, p: int)
    requires p !in PriorityOrder(rules)
    ensures NamesWithPriority(rules, p) == []
  {
    if NamesWithPriority(rules, p) != [] {
      assert NamesWithPriority(rules, p)[0] in NamesWithPriority(rules, p);
    }
  }

  /** The priorities in order of first appearance: the keys of the `defaultdict` grouping. */
  function PriorityOrder(rules: seq<RuleInfo>): (r: seq<int>)
    ensures Distinct(r)
    ensures forall p :: p in r <==> exists i :: 0 <= i < |rules| && rules[i].priority == p
  {
    if |rules| == 0 then []
    else
      var last := rules[|rules| - 1];
      var prev := PriorityOrder(rules[..|rules| - 1]);
      assert forall i :: 0 <= i < |rules| - 1 ==> rules[..|rules| - 1][i] == rules[i];
      if last.priority in prev then prev else prev + [last.priority]
  }

  function AlwaysApplyFindings(rules: seq<RuleInfo>): seq<Conflict> {
    var always := AlwaysApplyNames(rules);
    if |always| > MaxAlwaysApply then [TooManyAlwaysApply(|always|, always)] else []
  }

  /** One finding per priority of `ps` held by too many rules, in the order of `ps`. */
  function OverloadFindings(rules: seq<RuleInfo>, ps: seq<int>): seq<Conflict> {
    if |ps| == 0 then []
    else
      var p := ps[|ps| - 1];
      var group := NamesWithPriority(rules, p);
      OverloadFindings(rules, ps[..|ps| - 1])
        + (if |group| > MaxPerPriority then [SamePriorityOverload(p, group)] else [])
  }

  /** The finding for the pair `(i, j)` under the similarity measure `sim`, if it is above the threshold. */
  function PairFinding(names: seq<string>, sim: (string, string) -> Ratio, i: nat, j: nat): seq<Conflict>
    requires i < |names| && j < |names|
  {
    var r := sim(names[i], names[j]);
    if Exceeds(r) then [SimilarNames(names[i], names[j], r)] else []
  }

  /** The findings for the pairs `(i, k)` with `i < k < j`, in order of `k`. */
  function Row(names: seq<string>, sim: (string, string) -> Ratio, i: nat, j: nat): seq<Conflict>
    requires i < |names| && j <= |names|
  {
    if j <= i + 1 then [] else Row(names, sim, i, j - 1) + PairFinding(names, sim, i, j - 1)
  }

  /** The findings for all pairs whose first element comes before `n`. */
  function NameFindings(names: seq<string>, sim: (string, string) -> Ratio, n: nat): seq<Conflict>
    requires n <= |names|
  {
    if n == 0 then [] else NameFindings(names, sim, n - 1) + Row(names, sim, n - 1, |names|)
  }

  function PriorityZeroFindings(rules: seq<RuleInfo>): seq<Conflict> {
    var zero := NamesWithPriority(rules, 0);
    if |zero| > MaxPriorityZero then [TooManyPriorityZero(|zero|, zero)] else []
  }

  /** Everything `detect_conflicts` reports for `rules`, in report order. */
  function ConflictsOf(rules: seq<RuleInfo>): seq<Conflict> {
    AlwaysApplyFindings(rules)
      + OverloadFindings(rules, PriorityOrder(rules))
      + NameFindings(Names(rules), Jaccard, |rules|)
      + PriorityZeroFindings(rules)
  }

  lemma {:induction false} OverloadFindingsKind(rules: seq<RuleInfo>, ps: seq<int>)
    ensures forall c :: c in OverloadFindings(rules, ps) ==>
              c.SamePriorityOverload? && c.priority in ps && |NamesWithPriority(rules, c.priority)| > MaxPerPriority
              && c.rules == NamesWithPriority(rules, c.priority)
    ensures forall p :: p in ps && |NamesWithPriority(rules, p)| > MaxPerPriority ==>
              SamePriorityOverload(p, NamesWithPriority(rules, p)) in OverloadFindings(rules, ps)
  {
    if |ps| > 0 {
      OverloadFindingsKind(rules, ps[..|ps| - 1]);
      assert forall p :: p in ps ==> p in ps[..|ps| - 1] || p == ps[|ps| - 1];
    }
  }

  /** With distinct priorities, each priority gets at most one finding. */
  lemma {:induction false} OverloadFindingsUnique(rules: seq<RuleInfo>, ps: seq<int>)
    requires Distinct(ps)
    ensures forall i, j :: 0 <= i < j < |OverloadFindings(rules, ps)| ==>
              && OverloadFindings(rules, ps)[i].SamePriorityOverload?
              && OverloadFindings(rules, ps)[j].SamePriorityOverload?
              && OverloadFindings(rules, ps)[i].priority != OverloadFindings(rules, ps)[j].priority
  {
    if |ps| > 0 {
      var init := ps[..|ps| - 1];
      assert forall k :: 0 <= k < |init| ==> init[k] == ps[k];
      assert ps[|ps| - 1] !in init;
      OverloadFindingsUnique(rules, init);
      OverloadFindingsKind(rules, init);
      OverloadFindingsKind(rules, ps);
      var prev := OverloadFindings(rules, init);
      var all := OverloadFindings(rules, ps);
      forall i, j | 0 <= i < j < |all|
        ensures all[i].SamePriorityOverload? && all[j].SamePriorityOverload? && all[i].priority != all[j].priority
      {
        assert all[i] in all && all[j] in all;
        if j >= |prev| {
          assert all[j].priority == ps[|ps| - 1];
          assert all[i] == prev[i] && all[i] in prev;
          assert all[i].priority in init;
        } else {
          assert all[i] == prev[i] && all[j] == prev[j];
        }
      }
    } else {
      assert OverloadFindings(rules, ps) == [];
    }
  }

  /** `c` is the finding for the pair `i < j` of `names`, which are more than 80% similar. */
  predicate IsPairFinding(names: seq<string>, sim: (string, string) -> Ratio, i: int, j: int, c: Conflict) {
    && 0 <= i < j < |names|
    && Exceeds(sim(names[i], names[j]))
    && c == SimilarNames(names[i], names[j], sim(names[i], names[j]))
  }

  lemma {:induction false} RowPairs(names: seq<string>, sim: (string, string) -> Ratio, i: nat, j: nat)
    requires i < |names| && j <= |names|
    ensures forall c :: c in Row(names, sim, i, j) <==> exists k :: k < j && IsPairFinding(names, sim, i, k, c)
  {
    if j > i + 1 {
      RowPairs(names, sim, i, j - 1);
      var prev := Row(names, sim, i, j - 1);
      var last := PairFinding(names, sim, i, j - 1);
      forall c
        ensures c in prev + last <==> exists k :: k < j && IsPairFinding(names, sim, i, k, c)
      {
        if c in last {
          assert IsPairFinding(names, sim, i, j - 1, c);
        }
        if k :| k < j && IsPairFinding(names, sim, i, k, c) {
          if k == j - 1 {
            assert c in last;
          } else {
            assert c in prev;
          }
        }
      }
    }
  }

  /** A name finding is reported exactly for each pair `i < j` whose names are more than 80% similar. */
  lemma {:induction false} NameFindingsPairs(names: seq<string>, sim: (string, string) -> Ratio, n: nat)
    requires n <= |names|
    ensures forall c :: c in NameFindings(names, sim, n) <==> exists i, j :: i < n && IsPairFinding(names, sim, i, j, c)
  {
    if n > 0 {
      NameFindingsPairs(names, sim, n - 1);
      RowPairs(names, sim, n - 1, |names|);
      var prev := NameFindings(names, sim, n - 1);
      var row := Row(names, sim, n - 1, |names|);
      forall c
        ensures c in prev + row <==> exists i, j :: i < n && IsPairFinding(names, sim, i, j, c)
      {
        if c in row {
          var k :| k < |names| && IsPairFinding(names, sim, n - 1, k, c);
        }
        if i, j :| i < n && IsPairFinding(names, sim, i, j, c) {
          if i == n - 1 {
            assert c in row;
          } else {
            assert c in prev;
          }
        }
      }
    }
  }

  lemma {:induction false} RowKind(names: seq<string>, sim: (string, string) -> Ratio, i: nat, j: nat)
    requires i < |names| && j <= |names|
    ensures forall c :: c in Row(names, sim, i, j) ==> c.SimilarNames?
  {
    if j > i + 1 {
      RowKind(names, sim, i, j - 1);
    }
  }

  lemma {:induction false} NameFindingsKind(names: seq<string>, sim: (string, string) -> Ratio, n: nat)
    requires n <= |names|
    ensures forall c :: c in NameFindings(names, sim, n) ==> c.SimilarNames?
  {
    if n > 0 {
      NameFindingsKind(names, sim, n - 1);
      RowKind(names, sim, n - 1, |names|);
    }
  }

  lemma AlwaysApplySegment(rules: seq<RuleInfo>)
    ensures forall c :: c in AlwaysApplyFindings(rules) ==> Rank(c) == 0
  {
  }

  lemma OverloadSegment(rules: seq<RuleInfo>)
    ensures forall c :: c in OverloadFindings(rules, PriorityOrder(rules)) ==> Rank(c) == 1
  {
    OverloadFindingsKind(rules, PriorityOrder(rules));
  }

  lemma NameSegment(rules: seq<RuleInfo>)
    ensures forall c :: c in NameFindings(Names(rules), Jaccard, |rules|) ==> Rank(c) == 2
  {
    NameFindingsKind(Names(rules), Jaccard, |rules|);
  }

  lemma PriorityZeroSegment(rules: seq<RuleInfo>)
    ensures forall c :: c in PriorityZeroFindings(rules) ==> Rank(c) == 3
  {
  }

  lemma ConflictSegments(rules: seq<RuleInfo>)
    ensures forall c :: c in AlwaysApplyFindings(rules) ==> Rank(c) == 0
    ensures forall c :: c in OverloadFindings(rules, PriorityOrder(rules)) ==> Rank(c) == 1
    ensures forall c :: c in NameFindings(Names(rules), Jaccard, |rules|) ==> Rank(c) == 2
    ensures forall c :: c in PriorityZeroFindings(rules) ==> Rank(c) == 3
  {
    AlwaysApplySegment(rules);
    OverloadSegment(rules);
    NameSegment(rules);
    PriorityZeroSegment(rules);
  }

  /** Findings come out in the order the four checks run: always-apply, per priority, names, priority 0. */
  lemma ConflictOrder(rules: seq<RuleInfo>)
    ensures forall i, j :: 0 <= i < j < |ConflictsOf(rules)| ==> Rank(ConflictsOf(rules)[i]) <= Rank(ConflictsOf(rules)[j])
  {
    ConflictSegments(rules);
    var a := AlwaysApplyFindings(rules);
    var b := OverloadFindings(rules, PriorityOrder(rules));
    var c := NameFindings(Names(rules), Jaccard, |rules|);
    var d := PriorityZeroFindings(rules);
    var all := ConflictsOf(rules);
    assert all == a + b + c + d;
    forall k | 0 <= k < |all|
      ensures Rank(all[k]) == if k < |a| then 0 else if k < |a| + |b| then 1 else if k < |a| + |b| + |c| then 2 else 3
    {
      if k < |a| {
        assert all[k] == a[k] && a[k] in a;
      } else if k < |a| + |b| {
        assert all[k] == b[k - |a|] && b[k - |a|] in b;
      } else if k < |a| + |b| + |c| {
        assert all[k] == c[k - |a| - |b|] && c[k - |a| - |b|] in c;
      } else {
        assert all[k] == d[k - |a| - |b| - |c|] && d[k - |a| - |b| - |c|] in d;
      }
    }
  }

  /** Each kind of finding in the report comes from its own check. */
  lemma SegmentsOf(rules: seq<RuleInfo>)
    ensures forall x :: x in ConflictsOf(rules) && x.TooManyAlwaysApply? <==> x in AlwaysApplyFindings(rules)
    ensures forall x :: x in ConflictsOf(rules) && x.SamePriorityOverload? <==> x in OverloadFindings(rules, PriorityOrder(rules))
    ensures forall x :: x in ConflictsOf(rules) && x.SimilarNames? <==> x in NameFindings(Names(rules), Jaccard, |rules|)
    ensures forall x :: x in ConflictsOf(rules) && x.TooManyPriorityZero? <==> x in PriorityZeroFindings(rules)
  {
    ConflictSegments(rules);
    var a, b := AlwaysApplyFindings(rules), OverloadFindings(rules, PriorityOrder(rules));
    var c, d := NameFindings(Names(rules), Jaccard, |rules|), PriorityZeroFindings(rules);
    assert ConflictsOf(rules) == a + b + c + d;
    RankedMembership(a, b, c, d);
  }

  lemma RankedMembership(a: seq<Conflict>, b: seq<Conflict>, c: seq<Conflict>, d: seq<Conflict>)
    requires forall x :: x in a ==> Rank(x) == 0
    requires forall x :: x in b ==> Rank(x) == 1
    requires forall x :: x in c ==> Rank(x) == 2
    requires forall x :: x in d ==> Rank(x) == 3
    ensures forall x :: x in a + b + c + d && x.TooManyAlwaysApply? <==> x in a
    ensures forall x :: x in a + b + c + d && x.SamePriorityOverload? <==> x in b
    ensures forall x :: x in a + b + c + d && x.SimilarNames? <==> x in c
    ensures forall x :: x in a + b + c + d && x.TooManyPriorityZero? <==> x in d
  {
  }

  /** Where the overload findings sit in the report: one contiguous block, in their own order. */
  lemma OverloadPositions(rules: seq<RuleInfo>)
    ensures forall k :: 0 <= k < |ConflictsOf(rules)| && ConflictsOf(rules)[k].SamePriorityOverload? ==>
              var a := AlwaysApplyFindings(rules);
              |a| <= k < |a| + |OverloadFindings(rules, PriorityOrder(rules))|
              && ConflictsOf(rules)[k] == OverloadFindings(rules, PriorityOrder(rules))[k - |a|]
  {
    ConflictSegments(rules);
    var a := AlwaysApplyFindings(rules);
    var b := OverloadFindings(rules, PriorityOrder(rules));
    var rest := NameFindings(Names(rules), Jaccard, |rules|) + PriorityZeroFindings(rules);
    var all := ConflictsOf(rules);
    assert all == a + b + rest;
    forall k | 0 <= k < |all|
      ensures k < |a| ==> all[k] in a
      ensures |a| <= k < |a| + |b| ==> all[k] == b[k - |a|]
      ensures |a| + |b| <= k ==> all[k] in rest
    {
      if k >= |a| + |b| {
        assert all[k] == rest[k - |a| - |b|];
      }
    }
  }

  /**
   * The always-apply finding is reported exactly when more than 10 rules are
   * always-apply, and it lists exactly those rules.
   */
  lemma AlwaysApplyConflict(rules: seq<RuleInfo>)
    ensures TooManyAlwaysApply(|AlwaysApplyNames(rules)|, AlwaysApplyNames(rules)) in ConflictsOf(rules)
            <==> |AlwaysApplyNames(rules)| > MaxAlwaysApply
    ensures forall c :: c in ConflictsOf(rules) && c.TooManyAlwaysApply? ==>
              c.rules == AlwaysApplyNames(rules) && c.count > MaxAlwaysApply && SeverityOf(c) == High
  {
    SegmentsOf(rules);
  }

  /** The priority-0 finding is reported exactly when more than 10 rules have priority 0, and lists them. */
  lemma PriorityZeroConflict(rules: seq<RuleInfo>)
    ensures TooManyPriorityZero(|NamesWithPriority(rules, 0)|, NamesWithPriority(rules, 0)) in ConflictsOf(rules)
            <==> |NamesWithPriority(rules, 0)| > MaxPriorityZero
    ensures forall c :: c in ConflictsOf(rules) && c.TooManyPriorityZero? ==>
              c.rules == NamesWithPriority(rules, 0) && c.count > MaxPriorityZero && SeverityOf(c) == High
  {
    SegmentsOf(rules);
  }

  /** A priority gets an overload finding exactly when more than 15 rules have it, and it lists them. */
  lemma OverloadConflicts(rules: seq<RuleInfo>)
    ensures forall p :: SamePriorityOverload(p, NamesWithPriority(rules, p)) in ConflictsOf(rules)
                        <==> |NamesWithPriority(rules, p)| > MaxPerPriority
    ensures forall c :: c in ConflictsOf(rules) && c.SamePriorityOverload? ==>
              c.rules == NamesWithPriority(rules, c.priority) && |c.rules| > MaxPerPriority && SeverityOf(c) == Medium
  {
    SegmentsOf(rules);
    var order := PriorityOrder(rules);
    OverloadFindingsKind(rules, order);
    forall p | |NamesWithPriority(rules, p)| > MaxPerPriority
      ensures p in order
    {
      assert NamesWithPriority(rules, p)[0] in NamesWithPriority(rules, p);
    }
  }

  /** No priority gets two overload findings. */
  lemma OverloadConflictsUnique(rules: seq<RuleInfo>)
    ensures forall i, j ::
              (0 <= i < j < |ConflictsOf(rules)| && ConflictsOf(rules)[i].SamePriorityOverload?
               && ConflictsOf(rules)[j].SamePriorityOverload?)
              ==> ConflictsOf(rules)[i].priority != ConflictsOf(rules)[j].priority
  {
    OverloadPositions(rules);
    OverloadFindingsUnique(rules, PriorityOrder(rules));
  }

  /**
   * A similar-names finding is reported exactly for each pair of rules
   * `i < j` whose names are more than 80% similar; with distinct names it
   * never pairs a name with itself.
   */
  lemma SimilarNameConflicts(rules: seq<RuleInfo>)
    ensures forall c: Conflict :: c.SimilarNames? ==>
              (c in ConflictsOf(rules) <==> exists i, j :: IsPairFinding(Names(rules), Jaccard, i, j, c))
    ensures Distinct(Names(rules)) ==>
              forall c :: c in ConflictsOf(rules) && c.SimilarNames? ==> c.first != c.second && SeverityOf(c) == Low
  {
    SegmentsOf(rules);
    NameFindingsPairs(Names(rules), Jaccard, |rules|);
    forall c: Conflict | c.SimilarNames? && exists i, j :: IsPairFinding(Names(rules), Jaccard, i, j, c)
      ensures c in NameFindings(Names(rules), Jaccard, |rules|)
    {
      var i, j :| IsPairFinding(Names(rules), Jaccard, i, j, c);
      assert i < |rules|;
    }
  }
}
