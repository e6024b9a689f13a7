/**
 * The rule-file header: an optional block between two "---" markers at the
 * very start of a file, holding one `key: value` pair per line.  Both
 * header parsers of the tool set (the diagnostics scanner and the related-rule
 * search) cut the file and split each line the same way; this module holds
 * that shared part.
 */
module Header {
  import opened Wrappers
  import opened Text

  const Delimiter: string := "---"

  /**
   * `content.split("---", 2)` when `content` starts with "---": the text
   * between the first two markers and the text after the second one.  None
   * when the content does not start with the marker or has no second one.
   */
  function FrontMatter(content: string): (r: Option<(string, string)>)
    ensures r.Some? ==> content == Delimiter + r.value.0 + Delimiter + r.value.1
    ensures r.Some? ==> !Contains(r.value.0, Delimiter)
    ensures r.Some? ==> IndexOf(content[|Delimiter|..], Delimiter) == Some(|r.value.0|)
    ensures r.None? ==> !StartsWith(content, Delimiter) || !Contains(content[|Delimiter|..], Delimiter)
  {
    if StartsWith(content, Delimiter) then
      var rest := content[|Delimiter|..];
      match IndexOf(rest, Delimiter)
      case Some(k) =>
        var header := rest[..k];
        assert forall i :: OccursAt(header, Delimiter, i) ==> OccursAt(rest, Delimiter, i) by {
          forall i | OccursAt(header, Delimiter, i)
            ensures OccursAt(rest, Delimiter, i)
          {
            assert rest[i..i + |Delimiter|] == header[i..i + |Delimiter|];
          }
        }
        assert content == Delimiter + header + Delimiter + rest[k + |Delimiter|..];
        Some((header, rest[k + |Delimiter|..]))
      case None => None
    else None
  }

  /**
   * Cutting a file built from a header and a body gives back that header and
   * body, provided the header holds no marker and does not end in '-' (which
   * would run into the closing marker).
   */
  lemma FrontMatterOfBlock(header: string, body: string)
    requires !Contains(header, Delimiter) && !EndsWith(header, "-")
    ensures FrontMatter(Delimiter + header + Delimiter + body) == Some((header, body))
  {
    var text := Delimiter + header + Delimiter + body;
    var rest := text[|Delimiter|..];
    assert rest == header + Delimiter + body;
    assert OccursAt(rest, Delimiter, |header|);
    assert forall m :: 0 <= m < |Delimiter| ==> Delimiter[m] == '-';
    forall j | 0 <= j < |header|
      ensures !OccursAt(rest, Delimiter, j)
    {
      if j + |Delimiter| <= |header| {
        assert rest[j..j + |Delimiter|] == header[j..j + |Delimiter|];
        assert !OccursAt(header, Delimiter, j);
      } else {
        var c := |header| - 1 - j;
        assert rest[j + c] == header[|header| - 1];
        assert header[|header| - 1..] == [header[|header| - 1]];
        assert header[|header| - 1] != '-';
        assert rest[j..j + |Delimiter|][c] == rest[j + c];
      }
    }
    var k := IndexOf(rest, Delimiter).value;
    assert k == |header|;
    assert rest[..|header|] == header;
    assert rest[|header| + |Delimiter|..] == body;
  }

  /** `line.split(':', 1)` followed by `key.strip()` and `value.strip().strip('"').strip("'")`. */
  function KeyValue(line: string): Option<(string, string)> {
    match IndexOf(line, ":")
    case Some(i) => Some((Strip(line[..i]), StripQuotes(Strip(line[i + 1..]))))
    case None => None
  }

  /** The dictionary the header loop builds from the parsed lines: a later pair overwrites an earlier key. */
  function Assign(pairs: seq<Option<(string, string)>>): map<string, string> {
    if |pairs| == 0 then map[]
    else
      var m := Assign(pairs[..|pairs| - 1]);
      var kv := pairs[|pairs| - 1];
      if kv.Some? then m[kv.value.0 := kv.value.1] else m
  }

  /** One more parsed line updates the dictionary with its pair, if it has one. */
  lemma AssignStep(pairs: seq<Option<(string, string)>>, i: nat)
    requires i < |pairs|
    ensures Assign(pairs[..i + 1]) ==
              if pairs[i].Some? then Assign(pairs[..i])[pairs[i].value.0 := pairs[i].value.1] else Assign(pairs[..i])
  {
    assert pairs[..i + 1][..i] == pairs[..i];
  }

  /** Each header line split into its key and value, where it has a ':'. */
  function ParsedLines(lines: seq<string>): (r: seq<Option<(string, string)>>)
    ensures |r| == |lines|
    ensures forall i :: 0 <= i < |lines| ==> r[i] == KeyValue(lines[i])
  {
    seq(|lines|, i requires 0 <= i < |lines| => KeyValue(lines[i]))
  }

  function HeaderMap(lines: seq<string>): map<string, string> {
    Assign(ParsedLines(lines))
  }

  /** The metadata of a rule file: empty unless the file has a complete header block. */
  function Metadata(content: string): map<string, string> {
    match FrontMatter(content)
    case Some((header, _)) => HeaderMap(Split(header, '\n'))
    case None => map[]
  }

  predicate Sets(kv: Option<(string, string)>, k: string) {
    kv.Some? && kv.value.0 == k
  }

  /** A key is present exactly when some pair sets it. */
  lemma {:induction false} AssignKeys(pairs: seq<Option<(string, string)>>, k: string)
    ensures k in Assign(pairs) <==> exists i :: 0 <= i < |pairs| && Sets(pairs[i], k)
  {
    if |pairs| > 0 {
      var n := |pairs| - 1;
      var prefix := pairs[..n];
      AssignKeys(prefix, k);
      if k in Assign(prefix) {
        var i :| 0 <= i < |prefix| && Sets(prefix[i], k);
        assert Sets(pairs[i], k);
      }
      if !Sets(pairs[n], k) {
        if i :| 0 <= i < |pairs| && Sets(pairs[i], k) {
          assert i < n && Sets(prefix[i], k);
        }
      }
    }
  }

  /** The value of a key is the one given by the last pair that sets it. */
  lemma {:induction false} AssignLastWins(pairs: seq<Option<(string, string)>>, k: string, i: nat)
    requires i < |pairs| && Sets(pairs[i], k)
    requires forall j :: i < j < |pairs| ==> !Sets(pairs[j], k)
    ensures k in Assign(pairs) && Assign(pairs)[k] == pairs[i].value.1
  {
    var n := |pairs| - 1;
    if i < n {
      var prefix := pairs[..n];
      assert !Sets(pairs[n], k);
      AssignLastWins(prefix, k, i);
    }
  }

  /**
   * A header key is present exactly when some line sets it, and its value is
   * the one given by the last line that sets it.
   */
  lemma HeaderMapLastWins(lines: seq<string>, k: string, i: nat)
    requires i < |lines| && Sets(ParsedLines(lines)[i], k)
    requires forall j :: i < j < |lines| ==> !Sets(ParsedLines(lines)[j], k)
    ensures k in HeaderMap(lines) && HeaderMap(lines)[k] == ParsedLines(lines)[i].value.1
  {
    AssignLastWins(ParsedLines(lines), k, i);
  }

  lemma HeaderMapKeys(lines: seq<string>, k: string)
    ensures k in HeaderMap(lines) <==> exists i :: 0 <= i < |lines| && Sets(ParsedLines(lines)[i], k)
  {
    AssignKeys(ParsedLines(lines), k);
  }
}
