/**
 * The related-rule search run before solving a problem: keywords are taken
 * from the problem description, every rule file whose name, description,
 * tags or file-name keywords mention one of them is reported, and the
 * reports are ordered by priority.  Its header parser is the second variant
 * of the tool set: default priority 10, list-valued tags and globs.
 */
module RuleSearch {
  import opened Wrappers
  import opened Text
  import opened Header
  import opened Files

  // ---------------------------------------------------------------------
  // Rule metadata
  // ---------------------------------------------------------------------

  /** What `parse_rule_metadata` returns. */
  datatype RuleMetadata = RuleMetadata(
    priority: int,
    description: string,
    alwaysApply: bool,
    ruleType: Option<string>,
    tags: seq<string>,
    globs: seq<string>,
    keywords: seq<string>)

  const DefaultPriority: int := 10

  const Defaults: RuleMetadata := RuleMetadata(DefaultPriority, "", false, None, [], [], [])

  /**
   * `ast.literal_eval` on a value written as a list: the `str` of each
   * element when the text is a list literal, None when it is some other
   * literal or does not parse.
   */
  type ListReader = string -> Option<seq<string>>

  /** `int(value) if value.isdigit() else 10`. */
  function PriorityValue(value: string): int {
    if AllDigits(value) then DigitsValue(value) else DefaultPriority
  }

  /** `value.lower() in ['true', '1', 'yes']`. */
  predicate AlwaysApplyValue(value: string) {
    Lower(value) in ["true", "1", "yes"]
  }

  /** The tags or globs of a header value: a list literal, or the value alone. */
  function ListValue(value: string, readList: ListReader): seq<string> {
    var v := Strip(value);
    if StartsWith(v, "[") then
      match readList(v)
      case Some(items) => items
      case None => []
    else [v]
  }

  /** `Path.stem` of a `*.mdc` name: the name without its ".mdc" suffix. */
  function Stem(name: string): string {
    if EndsWith(name, ".mdc") && |name| > 4 then name[..|name| - 4] else name
  }

  /** The lower-cased stem with '-' and '_' turned into spaces, split on whitespace. */
  function StemKeywords(name: string): (r: seq<string>)
    ensures forall i :: 0 <= i < |r| ==> |r[i]| > 0
  {
    SplitWhitespace(ReplaceChar(ReplaceChar(Lower(Stem(name)), '-', ' '), '_', ' '))
  }

  /** The metadata a header dictionary determines, each key read from its last line. */
  function FromHeader(hm: map<string, string>, readList: ListReader): RuleMetadata {
    RuleMetadata(
      if "priority" in hm then PriorityValue(hm["priority"]) else DefaultPriority,
      if "description" in hm then hm["description"] else "",
      "alwaysApply" in hm && AlwaysApplyValue(hm["alwaysApply"]),
      if "type" in hm then Some(StripQuotes(hm["type"])) else None,
      if "tags" in hm then ListValue(hm["tags"], readList) else [],
      if "globs" in hm then ListValue(hm["globs"], readList) else [],
      [])
  }

  /** The header lines of a file's text: none unless it has a complete header block. */
  function HeaderLines(text: string): seq<string> {
    match FrontMatter(text)
    case Some((header, _)) => Split(header, '\n')
    case None => []
  }

  function MetadataOf(name: string, content: ReadResult, readList: ListReader): RuleMetadata {
    match content
    case ReadError(_) => Defaults
    case Contents(text) => FromHeader(HeaderMap(HeaderLines(text)), readList).(keywords := StemKeywords(name))
  }

  /** `parse_rule_metadata`: the header loop, each known key overwriting its field, then the file-name keywords. */
  method ParseRuleMetadata(name: string, content: ReadResult, readList: ListReader) returns (meta: RuleMetadata)
    ensures meta == MetadataOf(name, content, readList)
  {
    if content.ReadError? {
      return Defaults;
    }
    meta := Defaults;
    var lines := HeaderLines(content.text);
    ghost var pairs := ParsedLines(lines);
    for i := 0 to |lines|
      invariant meta == FromHeader(Assign(pairs[..i]), readList)
    {
      AssignStep(pairs, i);
      var kv := KeyValue(lines[i]);
      if kv.Some? {
        var (key, value) := kv.value;
        ghost var m := Assign(pairs[..i]);
        FromHeaderUpdate(m, key, value, readList);
        if key == "priority" {
          meta := meta.(priority := PriorityValue(value));
        } else if key == "description" {
          meta := meta.(description := value);
        } else if key == "alwaysApply" {
          meta := meta.(alwaysApply := AlwaysApplyValue(value));
        } else if key == "type" {
          meta := meta.(ruleType := Some(StripQuotes(value)));
        } else if key == "tags" {
          meta := meta.(tags := ListValue(value, readList));
        } else if key == "globs" {
          meta := meta.(globs := ListValue(value, readList));
        }
      }
    }
    assert pairs[..|lines|] == pairs;
    meta := meta.(keywords := StemKeywords(name));
  }

  /** Writing one key into the header dictionary changes the field it names and no other. */
  lemma FromHeaderUpdate(m: map<string, string>, key: string, value: string, readList: ListReader)
    ensures var before := FromHeader(m, readList);
            var after := FromHeader(m[key := value], readList);
            after == if key == "priority" then before.(priority := PriorityValue(value))
                     else if key == "description" then before.(description := value)
                     else if key == "alwaysApply" then before.(alwaysApply := AlwaysApplyValue(value))
                     else if key == "type" then before.(ruleType := Some(StripQuotes(value)))
                     else if key == "tags" then before.(tags := ListValue(value, readList))
                     else if key == "globs" then before.(globs := ListValue(value, readList))
                     else before
  {
  }

  /** A file that cannot be read gets the defaults, with no keywords at all. */
  lemma UnreadableRuleDefaults(name: string, message: string, readList: ListReader)
    ensures MetadataOf(name, ReadError(message), readList) == RuleMetadata(10, "", false, None, [], [], [])
  {
  }

  /**
   * The priority is the last `priority` value of the header when that value
   * is all digits, and 10 otherwise; so it is never negative, and a signed
   * value such as "-1" gives 10.
   */
  lemma PriorityOfHeader(lines: seq<string>, readList: ListReader, i: nat)
    requires i < |lines| && Sets(ParsedLines(lines)[i], "priority")
    requires forall j :: i < j < |lines| ==> !Sets(ParsedLines(lines)[j], "priority")
    ensures var v := ParsedLines(lines)[i].value.1;
            FromHeader(HeaderMap(lines), readList).priority == if AllDigits(v) then DigitsValue(v) else 10
  {
    HeaderMapLastWins(lines, "priority", i);
  }

  lemma PriorityNeverNegative(name: string, content: ReadResult, readList: ListReader)
    ensures MetadataOf(name, content, readList).priority >= 0
  {
  }

  lemma SignedPriorityIsDefault(value: string)
    requires |value| > 0 && (value[0] == '-' || value[0] == '+')
    ensures PriorityValue(value) == 10
  {
    assert !IsDigit(value[0]);
  }

  /** Only "true", "1" and "yes", in any letter case, make a rule always-apply. */
  lemma AlwaysApplyWords()
    ensures AlwaysApplyValue("True") && AlwaysApplyValue("YES") && AlwaysApplyValue("1")
    ensures !AlwaysApplyValue("on") && !AlwaysApplyValue("false") && !AlwaysApplyValue("")
  {
    assert Lower("True") == "true";
    assert Lower("YES") == "yes";
    assert Lower("1") == "1";
    assert |Lower("on")| == 2 && |Lower("")| == 0;
    assert Lower("false")[0] == 'f';
  }

  /** A value that is not written as a list becomes a one-element list; a list that does not read becomes empty. */
  lemma ListValueCases(value: string, readList: ListReader)
    ensures !StartsWith(Strip(value), "[") ==> ListValue(value, readList) == [Strip(value)]
    ensures StartsWith(Strip(value), "[") && readList(Strip(value)).None? ==> ListValue(value, readList) == []
    ensures StartsWith(Strip(value), "[") && readList(Strip(value)).Some? ==>
              ListValue(value, readList) == readList(Strip(value)).value
  {
  }

  // ---------------------------------------------------------------------
  // Keywords of the problem description
  // ---------------------------------------------------------------------

  /** The fixed keywords looked for in any problem description. */
  const CommonKeywords: seq<string> := [
    "ssh", "키", "hpanel", "hostinger", "vps", "배포",
    "보안", "에이전트", "암호", "비밀번호",
    "rules", "규칙", "우선순위", "무시",
    "f드라이브", "f-drive", "environment", "환경",
    "workflow", "워크플로우", "daily", "일일"
  ]

  /** The keywords of `candidates` that occur in `text`, in order. */
  function Occurring(candidates: seq<string>, text: string): (r: seq<string>)
    ensures forall k :: k in r ==> k in candidates && Contains(text, k)
    ensures forall k :: k in candidates && Contains(text, k) ==> k in r
  {
    if |candidates| == 0 then []
    else
      var init := candidates[..|candidates| - 1];
      var last := candidates[|candidates| - 1];
      assert forall k :: k in candidates <==> k in init || k == last;
      Occurring(init, text) + if Contains(text, last) then [last] else []
  }

  /** `[w for w in words if len(w) > 3]`. */
  function LongWords(words: seq<string>): (r: seq<string>)
    ensures forall w :: w in r <==> w in words && |w| > 3
  {
    if |words| == 0 then []
    else
      var init := words[..|words| - 1];
      var last := words[|words| - 1];
      assert forall w :: w in words <==> w in init || w == last;
      LongWords(init) + if |last| > 3 then [last] else []
  }

  /** The keywords of a problem description; `list(set(...))` keeps no order, so they form a set. */
  function KeywordsOf(problem: string): set<string> {
    Elements(KeywordList(Lower(problem)))
  }

  /** `set(xs)`. */
  function Elements(xs: seq<string>): set<string> {
    set k | k in xs
  }

  /** The keywords of a lower-cased description before duplicates are dropped. */
  function KeywordList(text: string): seq<string> {
    Occurring(CommonKeywords, text) + LongWords(Words(text))
  }

  /** `extract_keywords`: the loop over the common keywords, then the long words. */
  method ExtractKeywords(problem: string) returns (keywords: set<string>)
    ensures keywords == KeywordsOf(problem)
  {
    var text := Lower(problem);
    var common := FindCommonKeywords(text);
    var found := common + LongWords(Words(text));
    keywords := Elements(found);
  }

  /** The loop of `extract_keywords` over the common keywords. */
  method FindCommonKeywords(text: string) returns (found: seq<string>)
    ensures found == Occurring(CommonKeywords, text)
  {
    found := [];
    for i := 0 to |CommonKeywords|
      invariant found == Occurring(CommonKeywords[..i], text)
    {
      assert CommonKeywords[..i + 1][..i] == CommonKeywords[..i];
      if Contains(text, CommonKeywords[i]) {
        found := found + [CommonKeywords[i]];
      }
    }
    assert CommonKeywords[..|CommonKeywords|] == CommonKeywords;
  }

  /** Every maximal run of a string occurs in it. */
  lemma {:induction false} RunsOccur(s: string, keep: char -> bool, w: string)
    requires w in Runs(s, keep)
    ensures Contains(s, w)
    decreases |s|
  {
    if keep(s[0]) {
      var n := RunLength(s, keep);
      if w == s[..n] {
        assert OccursAt(s, w, 0);
      } else {
        RunsOccur(s[n..], keep, w);
        ContainsAppend(s[..n], s[n..], w);
        assert s[..n] + s[n..] == s;
      }
    } else {
      RunsOccur(s[1..], keep, w);
      ContainsAppend(s[..1], s[1..], w);
      assert s[..1] + s[1..] == s;
    }
  }

  /**
   * The keywords are exactly the common keywords found in the lower-cased
   * description and its words longer than three characters; each of them
   * occurs in the lower-cased description.
   */
  lemma KeywordsFound(problem: string, k: string)
    ensures k in KeywordsOf(problem) <==>
              (k in CommonKeywords && Contains(Lower(problem), k)) || (k in Words(Lower(problem)) && |k| > 3)
    ensures k in KeywordsOf(problem) ==> Contains(Lower(problem), k)
  {
    var text := Lower(problem);
    assert k in KeywordList(text) <==>
           k in Occurring(CommonKeywords, text) || k in LongWords(Words(text));
    if k in Words(text) {
      RunsOccur(text, IsWordChar, k);
    }
  }

  /** An empty description has no keywords. */
  lemma NoKeywordsInEmptyProblem()
    ensures KeywordsOf("") == {}
  {
    forall k | k in CommonKeywords
      ensures !Contains(Lower(""), k)
    {
      assert |k| > 0;
    }
    NothingOccurs(CommonKeywords, Lower(""));
    assert Words(Lower("")) == [];
  }

  lemma {:induction false} NothingOccurs(candidates: seq<string>, text: string)
    requires forall k :: k in candidates ==> !Contains(text, k)
    ensures Occurring(candidates, text) == []
  {
    if |candidates| > 0 {
      NothingOccurs(candidates[..|candidates| - 1], text);
    }
  }

  // ---------------------------------------------------------------------
  // Matching and ordering
  // ---------------------------------------------------------------------

  /** Some keyword, lower-cased, occurs in `target`. */
  predicate Mentions(keywords: set<string>, target: string) {
    exists k | k in keywords :: Contains(target, Lower(k))
  }

  /** The four-stage match: file name, description, tags, then the file-name keywords joined by spaces. */
  predicate Related(keywords: set<string>, name: string, meta: RuleMetadata) {
    || Mentions(keywords, Lower(Stem(name)))
    || Mentions(keywords, Lower(meta.description))
    || (exists t | t in meta.tags :: Mentions(keywords, Lower(t)))
    || Mentions(keywords, Lower(Join(meta.keywords, ' ')))
  }

  /** One reported rule. */
  datatype Hit = Hit(file: string, path: string, priority: int, description: string, ruleType: Option<string>,
                     tags: seq<string>, keywords: set<string>)

  /** The hit for the rule file `name` of the rules directory at `dirPath`: `str(rule_file)` is its path. */
  function HitOf(dirPath: string, name: string, meta: RuleMetadata, keywords: set<string>): Hit {
    Hit(name, dirPath + "/" + name, meta.priority, meta.description, meta.ruleType, meta.tags, keywords)
  }

  /** The related rules of `listing`, in listing order, before sorting. */
  function RelatedHits(dirPath: string, listing: seq<string>, dir: Dir, keywords: set<string>, readList: ListReader): (r: seq<Hit>)
    requires forall n :: n in listing ==> n in dir
    ensures forall h :: h in r ==> h.file in listing && h.keywords == keywords
  {
    if |listing| == 0 then []
    else
      var init := listing[..|listing| - 1];
      var name := listing[|listing| - 1];
      var meta := MetadataOf(name, dir[name].content, readList);
      RelatedHits(dirPath, init, dir, keywords, readList) + if Related(keywords, name, meta) then [HitOf(dirPath, name, meta, keywords)] else []
  }

  /** `x` placed after every element of the sorted `s` whose priority is not above its own. */
  function InsertByPriority(x: Hit, s: seq<Hit>): seq<Hit> {
    if |s| == 0 then [x]
    else if s[|s| - 1].priority <= x.priority then s + [x]
    else InsertByPriority(x, s[..|s| - 1]) + [s[|s| - 1]]
  }

  /** `list.sort(key=lambda x: x['priority'])`, a stable sort, as an insertion sort. */
  function SortByPriority(s: seq<Hit>): seq<Hit> {
    if |s| == 0 then [] else InsertByPriority(s[|s| - 1], SortByPriority(s[..|s| - 1]))
  }

  ghost predicate Ascending(s: seq<Hit>) {
    forall i, j :: 0 <= i < j < |s| ==> s[i].priority <= s[j].priority
  }

  /** The elements of `s` with priority `p`, in order. */
  function AtPriority(s: seq<Hit>, p: int): seq<Hit> {
    if |s| == 0 then [] else AtPriority(s[..|s| - 1], p) + if s[|s| - 1].priority == p then [s[|s| - 1]] else []
  }

  lemma {:induction false} AtPriorityAppend(s: seq<Hit>, t: seq<Hit>, p: int)
    ensures AtPriority(s + t, p) == AtPriority(s, p) + AtPriority(t, p)
    decreases |t|
  {
    if |t| == 0 {
      assert s + t == s;
    } else {
      AtPriorityAppend(s, t[..|t| - 1], p);
      assert (s + t)[..|s + t| - 1] == s + t[..|t| - 1];
    }
  }

  lemma {:induction false} InsertMembers(x: Hit, s: seq<Hit>)
    ensures forall e :: e in InsertByPriority(x, s) <==> e == x || e in s
    ensures multiset(InsertByPriority(x, s)) == multiset(s) + multiset{x}
  {
    if |s| > 0 && s[|s| - 1].priority > x.priority {
      var init := s[..|s| - 1];
      InsertMembers(x, init);
      assert init + [s[|s| - 1]] == s;
    }
  }

  lemma {:induction false} InsertKeepsOrder(x: Hit, s: seq<Hit>)
    requires Ascending(s)
    ensures Ascending(InsertByPriority(x, s))
  {
    if |s| > 0 && s[|s| - 1].priority > x.priority {
      var init := s[..|s| - 1];
      var last := s[|s| - 1];
      var r := InsertByPriority(x, init);
      InsertKeepsOrder(x, init);
      InsertMembers(x, init);
      forall e | e in r
        ensures e.priority <= last.priority
      {
      }
      forall i, j | 0 <= i < j < |r + [last]|
        ensures (r + [last])[i].priority <= (r + [last])[j].priority
      {
        if j == |r| {
          assert (r + [last])[i] in r;
        }
      }
    }
  }

  lemma {:induction false} InsertKeepsGroups(x: Hit, s: seq<Hit>, p: int)
    requires Ascending(s)
    ensures AtPriority(InsertByPriority(x, s), p) == AtPriority(s, p) + if x.priority == p then [x] else []
  {
    if |s| == 0 {
      assert [x][..0] == [];
    } else if s[|s| - 1].priority <= x.priority {
      assert (s + [x])[..|s|] == s;
    } else {
      var init := s[..|s| - 1];
      var last := s[|s| - 1];
      var r := InsertByPriority(x, init);
      InsertKeepsGroups(x, init, p);
      assert (r + [last])[..|r|] == r;
    }
  }

  /**
   * The sort orders by ascending priority, keeps every element, and is
   * stable: the elements of each priority keep their relative order.
   */
  lemma {:induction false} SortByPriorityIsStableSort(s: seq<Hit>)
    ensures Ascending(SortByPriority(s))
    ensures multiset(SortByPriority(s)) == multiset(s)
    ensures forall p :: AtPriority(SortByPriority(s), p) == AtPriority(s, p)
  {
    if |s| > 0 {
      var init := s[..|s| - 1];
      SortByPriorityIsStableSort(init);
      InsertKeepsOrder(s[|s| - 1], SortByPriority(init));
      InsertMembers(s[|s| - 1], SortByPriority(init));
      forall p
        ensures AtPriority(SortByPriority(s), p) == AtPriority(s, p)
      {
        InsertKeepsGroups(s[|s| - 1], SortByPriority(init), p);
      }
      assert init + [s[|s| - 1]] == s;
    }
  }

  // ---------------------------------------------------------------------
  // The search
  // ---------------------------------------------------------------------

  /**
   * What `search_rules_files` returns: nothing when the directory is missing
   * (`dir` is None) or holds no rule file, the related rules by priority otherwise.
   */
  function SearchResult(dirPath: string, problem: string, dir: Option<Dir>, listing: seq<string>, readList: ListReader): seq<Hit>
    requires dir.Some? ==> IsListing(listing, dir.value)
  {
    if dir.None? || |listing| == 0 then []
    else SortByPriority(RelatedHits(dirPath, listing, dir.value, KeywordsOf(problem), readList))
  }

  /** `search_rules_files` over the directory listing `listing`, in `glob` order. */
  method SearchRulesFiles(dirPath: string, problem: string, dir: Option<Dir>, listing: seq<string>, readList: ListReader)
    returns (hits: seq<Hit>)
    requires dir.Some? ==> IsListing(listing, dir.value)
    ensures hits == SearchResult(dirPath, problem, dir, listing, readList)
  {
    if dir.None? {
      return [];
    }
    if |listing| == 0 {
      return [];
    }
    var keywords := ExtractKeywords(problem);
    var related := CollectRelated(dirPath, listing, dir.value, keywords, readList);
    hits := SortByPriority(related);
  }

  /** The loop of `search_rules_files`: each file's metadata, then the four-stage match. */
  method CollectRelated(dirPath: string, listing: seq<string>, dir: Dir, keywords: set<string>, readList: ListReader)
    returns (related: seq<Hit>)
    requires forall n :: n in listing ==> n in dir
    ensures related == RelatedHits(dirPath, listing, dir, keywords, readList)
  {
    related := [];
    for i := 0 to |listing|
      invariant related == RelatedHits(dirPath, listing[..i], dir, keywords, readList)
    {
      var name := listing[i];
      var meta := ParseRuleMetadata(name, dir[name].content, readList);
      RelatedHitsStep(dirPath, listing, i, dir, keywords, readList);
      if Related(keywords, name, meta) {
        related := related + [HitOf(dirPath, name, meta, keywords)];
      }
    }
    assert listing[..|listing|] == listing;
  }

  lemma RelatedHitsStep(dirPath: string, listing: seq<string>, i: nat, dir: Dir, keywords: set<string>, readList: ListReader)
    requires i < |listing| && forall n :: n in listing ==> n in dir
    ensures var meta := MetadataOf(listing[i], dir[listing[i]].content, readList);
            RelatedHits(dirPath, listing[..i + 1], dir, keywords, readList) ==
              RelatedHits(dirPath, listing[..i], dir, keywords, readList)
              + if Related(keywords, listing[i], meta) then [HitOf(dirPath, listing[i], meta, keywords)] else []
  {
    assert listing[..i + 1][..i] == listing[..i];
  }

  /** A rule is among the related hits exactly when it matches some keyword in one of the four stages. */
  lemma {:induction false} RelatedHitsExact(dirPath: string, listing: seq<string>, dir: Dir, keywords: set<string>, readList: ListReader,
                                            h: Hit)
    requires forall n :: n in listing ==> n in dir
    ensures h in RelatedHits(dirPath, listing, dir, keywords, readList) <==>
              exists n :: n in listing && h == HitOf(dirPath, n, MetadataOf(n, dir[n].content, readList), keywords)
                          && Related(keywords, n, MetadataOf(n, dir[n].content, readList))
  {
    if |listing| > 0 {
      var init := listing[..|listing| - 1];
      var name := listing[|listing| - 1];
      assert forall n :: n in listing <==> n in init || n == name;
      RelatedHitsExact(dirPath, init, dir, keywords, readList, h);
    }
  }

  /** Without keywords no rule matches. */
  lemma {:induction false} NoKeywordsNoHits(dirPath: string, listing: seq<string>, dir: Dir, readList: ListReader)
    requires forall n :: n in listing ==> n in dir
    ensures RelatedHits(dirPath, listing, dir, {}, readList) == []
  {
    if |listing| > 0 {
      NoKeywordsNoHits(dirPath, listing[..|listing| - 1], dir, readList);
    }
  }

  /**
   * The search reports exactly the related rules, each carrying the
   * problem's keywords, in ascending priority, with rules of equal priority
   * in `glob` order; a missing directory gives nothing.
   */
  lemma SearchResultSpec(dirPath: string, problem: string, dir: Option<Dir>, listing: seq<string>, readList: ListReader)
    requires dir.Some? ==> IsListing(listing, dir.value)
    ensures dir.None? ==> SearchResult(dirPath, problem, dir, listing, readList) == []
    ensures Ascending(SearchResult(dirPath, problem, dir, listing, readList))
    ensures dir.Some? ==>
              var related := RelatedHits(dirPath, listing, dir.value, KeywordsOf(problem), readList);
              && multiset(SearchResult(dirPath, problem, dir, listing, readList)) == multiset(related)
              && forall p :: AtPriority(SearchResult(dirPath, problem, dir, listing, readList), p) == AtPriority(related, p)
    ensures forall h :: h in SearchResult(dirPath, problem, dir, listing, readList) ==>
              h.file in listing && h.keywords == KeywordsOf(problem)
  {
    if dir.Some? && |listing| > 0 {
      var related := RelatedHits(dirPath, listing, dir.value, KeywordsOf(problem), readList);
      var r := SortByPriority(related);
      SortByPriorityIsStableSort(related);
      forall h | h in r
        ensures h in related
      {
        assert h in multiset(r);
      }
    }
  }
}
