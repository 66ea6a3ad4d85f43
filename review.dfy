/**
 * source/review_utils.py without its call to the language model:
 * `format_response`, which turns the reviewer's reply into a list of issue
 * records, `display_issues`, which prints them, and the exit status
 * scripts/review.py derives from the list.
 */
module ReviewUtils {
  import opened Wrappers
  import opened Text

  // ---------------------------------------------------------------------
  // Recognising a line (line 18)
  // ---------------------------------------------------------------------

  /** The four keys of the reply format. */
  datatype Key = RuleViolated | LineNumbers | IssueDescription | Suggestion

  /** The spelling under which a key is stored in an issue record. */
  function KeyName(k: Key): string {
    match k
    case RuleViolated => "Rule Violated"
    case LineNumbers => "Line Number(s)"
    case IssueDescription => "Issue Description"
    case Suggestion => "Suggestion"
  }

  /** One of the stored spellings. */
  predicate IsKeyName(name: string) {
    name == "Rule Violated" || name == "Line Number(s)" || name == "Issue Description" || name == "Suggestion"
  }

  /** The line begins with the key, in any letter case, immediately followed by `:`. */
  predicate StartsWithKey(line: string, k: Key) {
    |KeyName(k)| < |line| && EqualsIgnoreCase(line[..|KeyName(k)|], KeyName(k))
    && line[|KeyName(k)|] == ':'
  }

  /** The second group of the pattern: what follows the colon, less the whitespace `\s*` takes. */
  function ValueAfter(line: string, k: Key): string
    requires StartsWithKey(line, k)
  {
    LStrip(line[|KeyName(k)| + 1..])
  }

  /** A recognised line: its key and its value. */
  datatype Entry = Entry(key: Key, value: string)

  /** `re.match` of the key pattern against a stripped line, trying the keys in pattern order. */
  function Parse(line: string): (r: Option<Entry>)
    ensures r.Some? ==> StartsWithKey(line, r.value.key) && r.value.value == ValueAfter(line, r.value.key)
    ensures r.None? <==> forall k :: !StartsWithKey(line, k)
  {
    if StartsWithKey(line, RuleViolated) then Some(Entry(RuleViolated, ValueAfter(line, RuleViolated)))
    else if StartsWithKey(line, LineNumbers) then Some(Entry(LineNumbers, ValueAfter(line, LineNumbers)))
    else if StartsWithKey(line, IssueDescription) then Some(Entry(IssueDescription, ValueAfter(line, IssueDescription)))
    else if StartsWithKey(line, Suggestion) then Some(Entry(Suggestion, ValueAfter(line, Suggestion)))
    else None
  }

  /** The keys begin with four different letters, so at most one of them fits a line. */
  lemma KeyUnique(line: string, a: Key, b: Key)
    requires StartsWithKey(line, a) && StartsWithKey(line, b)
    ensures a == b
  {
    assert LowerAscii(line[0]) == LowerAscii(KeyName(a)[0]);
    assert LowerAscii(line[0]) == LowerAscii(KeyName(b)[0]);
  }

  /**
   * A key in any letter case followed by a colon is recognised, stored under
   * its canonical spelling, with the text after the colon, less its leading
   * whitespace, as its value.
   */
  lemma ParseAnyCase(spelling: string, rest: string, k: Key)
    requires EqualsIgnoreCase(spelling, KeyName(k))
    ensures Parse(spelling + ":" + rest) == Some(Entry(k, LStrip(rest)))
  {
    var line := spelling + ":" + rest;
    assert line[..|KeyName(k)|] == spelling;
    assert line[|KeyName(k)| + 1..] == rest;
    assert StartsWithKey(line, k);
    KeyUnique(line, k, Parse(line).value.key);
  }

  // ---------------------------------------------------------------------
  // What format_response computes
  // ---------------------------------------------------------------------

  /** An issue: a dict from stored key spellings to values. */
  type Record = map<string, string>

  /** `{"Message": "No issues found."}`, the record returned when nothing was recognised. */
  const Sentinel: Record := map["Message" := "No issues found."]

  /** What one line of the reply contributes: its entry when the stripped line is recognised. */
  function EntryOf(line: string): seq<Entry> {
    match Parse(Strip(line))
    case Some(e) => [e]
    case None => []
  }

  /** The recognised lines of the reply, in order. */
  function Entries(lines: seq<string>): seq<Entry> {
    if lines == [] then []
    else Entries(lines[..|lines| - 1]) + EntryOf(lines[|lines| - 1])
  }

  /**
   * The entries cut into issues: a new group opens at every "Rule Violated"
   * entry, and the entries before the first one form a group of their own.
   */
  function Groups(es: seq<Entry>): seq<seq<Entry>> {
    if es == [] then []
    else
      var gs := Groups(es[..|es| - 1]);
      var e := es[|es| - 1];
      if gs == [] || e.key == RuleViolated then gs + [[e]]
      else gs[..|gs| - 1] + [gs[|gs| - 1] + [e]]
  }

  /** The dict one group fills in: each entry stores its value under its key, overriding earlier ones. */
  function BuildRecord(g: seq<Entry>): Record {
    if g == [] then map[]
    else BuildRecord(g[..|g| - 1])[KeyName(g[|g| - 1].key) := g[|g| - 1].value]
  }

  /** The record of each group, in order. */
  function RecordsOf(gs: seq<seq<Entry>>): (rs: seq<Record>)
    ensures |rs| == |gs|
  {
    if gs == [] then [] else RecordsOf(gs[..|gs| - 1]) + [BuildRecord(gs[|gs| - 1])]
  }

  /** The issue records of the entries. */
  function Records(es: seq<Entry>): (rs: seq<Record>)
    ensures |rs| == |Groups(es)|
  {
    RecordsOf(Groups(es))
  }

  /** `format_response` on the lines of the reply. */
  function FormatLines(lines: seq<string>): (r: seq<Record>)
    ensures |r| >= 1
  {
    var rs := Records(Entries(lines));
    if rs == [] then [Sentinel] else rs
  }

  /** `format_response(raw_response)`. */
  function FormatResponseSpec(raw: string): seq<Record> {
    FormatLines(SplitLines(raw))
  }

  // ---------------------------------------------------------------------
  // Structure of the groups and records
  // ---------------------------------------------------------------------

  lemma {:induction false} EntriesAppend(a: seq<string>, b: seq<string>)
    ensures Entries(a + b) == Entries(a) + Entries(b)
    decreases |b|
  {
    if b == [] {
      assert a + b == a;
    } else {
      var init := b[..|b| - 1];
      var last := b[|b| - 1];
      assert (a + b)[..|a + b| - 1] == a + init;
      assert (a + b)[|a + b| - 1] == last;
      assert Entries(a + b) == Entries(a + init) + EntryOf(last);
      EntriesAppend(a, init);
      assert Entries(b) == Entries(init) + EntryOf(last);
    }
  }

  /** There are no groups exactly when there are no entries. */
  lemma GroupsEmpty(es: seq<Entry>)
    ensures Groups(es) == [] <==> es == []
  {
  }

  /** How one more entry changes the groups. */
  lemma GroupsSnoc(es: seq<Entry>, e: Entry)
    ensures Groups(es + [e]) ==
      var gs := Groups(es);
      if gs == [] || e.key == RuleViolated then gs + [[e]] else gs[..|gs| - 1] + [gs[|gs| - 1] + [e]]
  {
    assert (es + [e])[..|es|] == es;
  }

  lemma RecordsOfSnoc(gs: seq<seq<Entry>>, g: seq<Entry>)
    ensures RecordsOf(gs + [g]) == RecordsOf(gs) + [BuildRecord(g)]
  {
    assert (gs + [g])[..|gs|] == gs;
  }

  lemma {:induction false} RecordsOfAt(gs: seq<seq<Entry>>, i: nat)
    requires i < |gs|
    ensures RecordsOf(gs)[i] == BuildRecord(gs[i])
    decreases |gs|
  {
    if i < |gs| - 1 {
      RecordsOfAt(gs[..|gs| - 1], i);
    }
  }

  // How one more entry changes the records: the state machine of lines 20-32.

  /** The first entry opens the first record. */
  lemma RecordsFirst(e: Entry)
    ensures Records([e]) == [map[KeyName(e.key) := e.value]]
  {
    var none: seq<Entry> := [];
    GroupsSnoc(none, e);
    assert none + [e] == [e];
    assert BuildRecord([e]) == map[][KeyName(e.key) := e.value] by {
      assert [e][..0] == [];
    }
    RecordsOfSnoc([], [e]);
  }

  /** A later "Rule Violated" entry opens a new record. */
  lemma RecordsOpen(es: seq<Entry>, e: Entry)
    requires es != [] && e.key == RuleViolated
    ensures Records(es + [e]) == Records(es) + [map[KeyName(e.key) := e.value]]
  {
    GroupsSnoc(es, e);
    assert BuildRecord([e]) == map[][KeyName(e.key) := e.value] by {
      assert [e][..0] == [];
    }
    RecordsOfSnoc(Groups(es), [e]);
  }

  /** Any other later entry is stored in the last record. */
  lemma RecordsExtend(es: seq<Entry>, e: Entry)
    requires es != [] && e.key != RuleViolated
    ensures Records(es + [e]) == Records(es)[..|Records(es)| - 1]
                           + [Records(es)[|Records(es)| - 1][KeyName(e.key) := e.value]]
  {
    GroupsSnoc(es, e);
    GroupsEmpty(es);
    var gs := Groups(es);
    var front := gs[..|gs| - 1];
    var g := gs[|gs| - 1];
    assert gs == front + [g];
    RecordsOfSnoc(front, g);
    RecordsOfSnoc(front, g + [e]);
    assert (g + [e])[..|g|] == g;
  }

  /** The entries of all groups, in group order. */
  function Flat(gs: seq<seq<Entry>>): seq<Entry> {
    if gs == [] then [] else Flat(gs[..|gs| - 1]) + gs[|gs| - 1]
  }

  lemma FlatSnoc(gs: seq<seq<Entry>>, g: seq<Entry>)
    ensures Flat(gs + [g]) == Flat(gs) + g
  {
    assert (gs + [g])[..|gs|] == gs;
  }

  lemma FlatExtend(gs: seq<seq<Entry>>, e: Entry)
    requires gs != []
    ensures Flat(gs[..|gs| - 1] + [gs[|gs| - 1] + [e]]) == Flat(gs) + [e]
  {
    var front := gs[..|gs| - 1];
    var last := gs[|gs| - 1];
    assert gs == front + [last];
    FlatSnoc(front, last);
    FlatSnoc(front, last + [e]);
  }

  /** The groups keep every entry, in text order. */
  lemma {:induction false} GroupsFlat(es: seq<Entry>)
    ensures Flat(Groups(es)) == es
    decreases |es|
  {
    if es != [] {
      var init := es[..|es| - 1];
      var e := es[|es| - 1];
      GroupsFlat(init);
      var gs := Groups(init);
      assert es == init + [e];
      if gs == [] || e.key == RuleViolated {
        FlatSnoc(gs, [e]);
      } else {
        FlatExtend(gs, e);
      }
    }
  }

  /**
   * Each group is non-empty, a "Rule Violated" entry can only open a group,
   * and every group but the first opens with one.
   */
  predicate WellGrouped(gs: seq<seq<Entry>>) {
    && (forall i :: 0 <= i < |gs| ==> gs[i] != [])
    && (forall i :: 0 < i < |gs| ==> gs[i][0].key == RuleViolated)
    && (forall i, j :: 0 <= i < |gs| && 0 < j < |gs[i]| ==> gs[i][j].key != RuleViolated)
  }

  lemma WellGroupedOpen(gs: seq<seq<Entry>>, e: Entry)
    requires WellGrouped(gs) && (gs == [] || e.key == RuleViolated)
    ensures WellGrouped(gs + [[e]])
  {
    assert forall i :: 0 <= i < |gs| ==> (gs + [[e]])[i] == gs[i];
  }

  lemma WellGroupedExtend(gs: seq<seq<Entry>>, e: Entry)
    requires WellGrouped(gs) && gs != [] && e.key != RuleViolated
    ensures WellGrouped(gs[..|gs| - 1] + [gs[|gs| - 1] + [e]])
  {
    var r := gs[..|gs| - 1] + [gs[|gs| - 1] + [e]];
    var last := gs[|gs| - 1];
    assert forall i :: 0 <= i < |gs| - 1 ==> r[i] == gs[i];
    assert r[|gs| - 1] == last + [e];
    assert forall j :: 0 <= j < |last| ==> (last + [e])[j] == last[j];
  }

  lemma {:induction false} GroupsWellGrouped(es: seq<Entry>)
    ensures WellGrouped(Groups(es))
    decreases |es|
  {
    if es != [] {
      var init := es[..|es| - 1];
      var e := es[|es| - 1];
      GroupsWellGrouped(init);
      var gs := Groups(init);
      if gs == [] || e.key == RuleViolated {
        WellGroupedOpen(gs, e);
      } else {
        WellGroupedExtend(gs, e);
      }
    }
  }

  /** The number of "Rule Violated" entries. */
  function CountRuleViolated(es: seq<Entry>): nat {
    if es == [] then 0
    else CountRuleViolated(es[..|es| - 1]) + if es[|es| - 1].key == RuleViolated then 1 else 0
  }

  /**
   * One record per "Rule Violated" line, and one more when another recognised
   * line comes before the first of them.
   */
  lemma {:induction false} RecordCount(es: seq<Entry>)
    ensures |Records(es)| == CountRuleViolated(es) + if es != [] && es[0].key != RuleViolated then 1 else 0
    decreases |es|
  {
    if es != [] {
      var init := es[..|es| - 1];
      RecordCount(init);
      GroupsEmpty(init);
      assert es == init + [es[|es| - 1]];
      GroupsSnoc(init, es[|es| - 1]);
      if init != [] {
        assert init[0] == es[0];
      }
    }
  }

  /** A record holds exactly the keys of its group, under their stored spellings. */
  lemma {:induction false} BuildRecordKeys(g: seq<Entry>)
    ensures forall name :: name in BuildRecord(g) ==> IsKeyName(name)
    ensures forall name :: name in BuildRecord(g) <==> exists j :: 0 <= j < |g| && KeyName(g[j].key) == name
    decreases |g|
  {
    if g != [] {
      var init := g[..|g| - 1];
      BuildRecordKeys(init);
      assert forall j :: 0 <= j < |init| ==> init[j] == g[j];
    }
  }

  lemma KeyNameInjective(a: Key, b: Key)
    requires KeyName(a) == KeyName(b)
    ensures a == b
  {
  }

  /** Within one record, a key repeated inside its group keeps the last value given. */
  lemma {:induction false} LastValueWins(g: seq<Entry>, k: Key)
    requires KeyName(k) in BuildRecord(g)
    ensures exists j :: 0 <= j < |g| && g[j] == Entry(k, BuildRecord(g)[KeyName(k)])
                        && forall m :: j < m < |g| ==> g[m].key != k
    decreases |g|
  {
    var init := g[..|g| - 1];
    var e := g[|g| - 1];
    var name := KeyName(k);
    assert BuildRecord(g) == BuildRecord(init)[KeyName(e.key) := e.value];
    if e.key == k {
      assert g[|g| - 1] == Entry(k, BuildRecord(g)[name]);
    } else {
      if KeyName(e.key) == name {
        KeyNameInjective(e.key, k);
      }
      assert BuildRecord(g)[name] == BuildRecord(init)[name];
      LastValueWins(init, k);
      var j :| 0 <= j < |init| && init[j] == Entry(k, BuildRecord(init)[name])
               && forall m :: j < m < |init| ==> init[m].key != k;
      assert g[j] == init[j];
      assert forall m :: j < m < |g| - 1 ==> g[m] == init[m];
    }
  }

  /**
   * Every record is non-empty, uses the canonical key spellings only and so
   * never holds "Message".
   */
  lemma RecordsWellFormed(es: seq<Entry>)
    ensures forall i :: 0 <= i < |Records(es)| ==>
      Records(es)[i] != map[] && "Message" !in Records(es)[i]
      && forall name :: name in Records(es)[i] ==> IsKeyName(name)
  {
    GroupsWellGrouped(es);
    forall i | 0 <= i < |Records(es)|
      ensures Records(es)[i] != map[] && "Message" !in Records(es)[i]
      ensures forall name :: name in Records(es)[i] ==> IsKeyName(name)
    {
      var g := Groups(es)[i];
      RecordsOfAt(Groups(es), i);
      BuildRecordKeys(g);
      assert KeyName(g[0].key) in BuildRecord(g);
    }
  }

  /** The reply yields the "No issues found." sentinel exactly when no line is recognised. */
  lemma NoIssuesIff(lines: seq<string>)
    ensures FormatLines(lines) == [Sentinel] <==> Entries(lines) == []
  {
    var es := Entries(lines);
    GroupsEmpty(es);
    RecordsWellFormed(es);
    if es != [] {
      assert "Message" in Sentinel;
      assert Records(es)[0] != Sentinel;
    }
  }

  lemma EntriesSingle(line: string)
    ensures Entries([line]) == EntryOf(line)
  {
    assert [line][..0] == [];
  }

  lemma EntriesSkip(before: seq<string>, line: string, after: seq<string>)
    requires EntryOf(line) == []
    ensures Entries(before + [line] + after) == Entries(before + after)
  {
    EntriesAppend(before + [line], after);
    EntriesAppend(before, [line]);
    EntriesAppend(before, after);
    EntriesSingle(line);
  }

  /** Blank and unrecognised lines can be deleted without changing the result. */
  lemma UnrecognisedLineIgnored(before: seq<string>, line: string, after: seq<string>)
    requires Parse(Strip(line)).None?
    ensures FormatLines(before + [line] + after) == FormatLines(before + after)
  {
    EntriesSkip(before, line, after);
  }

  // ---------------------------------------------------------------------
  // The method
  // ---------------------------------------------------------------------

  /** The records built so far: the finished ones and, when non-empty, the current one. */
  function Pending(issues: seq<Record>, issue: Record): seq<Record> {
    if issue == map[] then issues else issues + [issue]
  }

  /** The state of the loop after the lines whose entries are `es`. */
  predicate Parsed(es: seq<Entry>, issues: seq<Record>, issue: Record) {
    && Pending(issues, issue) == Records(es)
    && (issue == map[] <==> es == [])
    && (issue == map[] ==> issues == [])
  }

  lemma LineStep(lines: seq<string>, i: nat)
    requires i < |lines|
    ensures Entries(lines[..i + 1]) == Entries(lines[..i]) + EntryOf(lines[i])
  {
    assert lines[..i + 1][..i] == lines[..i];
  }

  /** A "Rule Violated" entry pushes the current issue when it holds anything and starts a new one. */
  lemma OpenStep(es: seq<Entry>, issues: seq<Record>, issue: Record, value: string)
    requires Parsed(es, issues, issue)
    ensures Parsed(es + [Entry(RuleViolated, value)],
                   if issue == map[] then issues else issues + [issue], map["Rule Violated" := value])
  {
    var e := Entry(RuleViolated, value);
    var started: Record := map["Rule Violated" := value];
    assert "Rule Violated" in started;
    assert started != map[];
    assert es + [e] != [];
    if es == [] {
      RecordsFirst(e);
      assert Pending(issues, started) == [started];
    } else {
      RecordsOpen(es, e);
      assert Pending(issues + [issue], started) == Pending(issues, issue) + [started];
    }
  }

  /** Any other entry is stored in the current issue. */
  lemma StoreStep(es: seq<Entry>, issues: seq<Record>, issue: Record, k: Key, value: string)
    requires Parsed(es, issues, issue) && k != RuleViolated
    ensures Parsed(es + [Entry(k, value)], issues, issue[KeyName(k) := value])
  {
    var e := Entry(k, value);
    var updated := issue[KeyName(k) := value];
    assert KeyName(k) in updated;
    assert updated != map[];
    assert es + [e] != [];
    if es == [] {
      RecordsFirst(e);
      assert Pending(issues, updated) == [updated];
    } else {
      RecordsExtend(es, e);
      assert Pending(issues, updated) == issues + [updated];
      assert Records(es) == issues + [issue];
    }
  }

  /** At the end the pending records are the whole result. */
  lemma FinishStep(lines: seq<string>, issues: seq<Record>, issue: Record)
    requires Parsed(Entries(lines), issues, issue)
    ensures Pending(issues, issue) == [] ==> FormatLines(lines) == [Sentinel]
    ensures Pending(issues, issue) != [] ==> FormatLines(lines) == Pending(issues, issue)
  {
  }

  /**
   * `format_response(raw_response)`: the loop over the stripped lines keeps
   * the current issue and the finished ones; a "Rule Violated" line closes
   * the current issue when it holds anything.
   */
  method FormatResponse(raw: string) returns (result: seq<Record>)
    ensures result == FormatResponseSpec(raw)
  {
    var lines := SplitLines(raw);
    var issues: seq<Record> := [];
    var issue: Record := map[];
    for i := 0 to |lines|
      invariant Parsed(Entries(lines[..i]), issues, issue)
    {
      ghost var es := Entries(lines[..i]);
      LineStep(lines, i);
      var line := Strip(lines[i]);
      if line == "" {
        assert EntryOf(lines[i]) == [];
        assert Entries(lines[..i + 1]) == es;
        continue;
      }
      var m := Parse(line);
      if m.Some? {
        assert EntryOf(lines[i]) == [m.value];
        assert Entries(lines[..i + 1]) == es + [m.value];
        var value := m.value.value;
        match m.value.key
        case RuleViolated =>
          OpenStep(es, issues, issue, value);
          if issue != map[] {
            issues := issues + [issue];
            issue := map[];
          }
          issue := issue["Rule Violated" := value];
        case LineNumbers =>
          StoreStep(es, issues, issue, LineNumbers, value);
          issue := issue["Line Number(s)" := value];
        case IssueDescription =>
          StoreStep(es, issues, issue, IssueDescription, value);
          issue := issue["Issue Description" := value];
        case Suggestion =>
          StoreStep(es, issues, issue, Suggestion, value);
          issue := issue["Suggestion" := value];
      } else {
        assert EntryOf(lines[i]) == [];
        assert Entries(lines[..i + 1]) == es;
      }
    }
    assert lines[..|lines|] == lines;
    FinishStep(lines, issues, issue);
    if issue != map[] {
      issues := issues + [issue];
    }
    if issues == [] {
      return [Sentinel];
    }
    return issues;
  }

  // ---------------------------------------------------------------------
  // display_issues and the exit status
  // ---------------------------------------------------------------------

  /** `issue.get(key, 'N/A')`. */
  function Get(issue: Record, key: string): (v: string)
    ensures key in issue ==> v == issue[key]
    ensures key !in issue ==> v == "N/A"
  {
    if key in issue then issue[key] else "N/A"
  }

  /** `'-' * 80`. */
  const Separator: string := "--------------------------------------------------------------------------------"

  /** The five lines printed for one issue. */
  function IssueLines(issue: Record): (lines: seq<string>)
    ensures |lines| == 5
  {
    [ "Rule Violated: " + Get(issue, "Rule Violated"),
      "Line Number(s): " + Get(issue, "Line Number(s)"),
      "Issue Description: " + Get(issue, "Issue Description"),
      "Suggestion: " + Get(issue, "Suggestion"),
      Separator ]
  }

  /** The printed lines of the issues, one block after another. */
  function AllIssueLines(issues: seq<Record>): seq<string> {
    if issues == [] then []
    else AllIssueLines(issues[..|issues| - 1]) + IssueLines(issues[|issues| - 1])
  }

  /** Line 82: the first record is the sentinel. */
  predicate IsNoIssues(issues: seq<Record>)
    requires issues != []
  {
    "Message" in issues[0] && issues[0]["Message"] == "No issues found."
  }

  /** The lines `display_issues(issues)` prints; indexing `issues[0]` needs a non-empty list. */
  function DisplayIssues(issues: seq<Record>): seq<string>
    requires issues != []
  {
    if IsNoIssues(issues) then ["No issues found."] else AllIssueLines(issues)
  }

  /** Five lines per issue, in order: the four fields, "N/A" where missing, then the separator. */
  lemma {:induction false} AllIssueLinesLayout(issues: seq<Record>)
    ensures |AllIssueLines(issues)| == 5 * |issues|
    ensures forall i, j :: 0 <= i < |issues| && 0 <= j < 5 ==>
      AllIssueLines(issues)[5 * i + j] == IssueLines(issues[i])[j]
    decreases |issues|
  {
    if issues != [] {
      var init := issues[..|issues| - 1];
      AllIssueLinesLayout(init);
      var front := AllIssueLines(init);
      var block := IssueLines(issues[|issues| - 1]);
      assert AllIssueLines(issues) == front + block;
      forall i, j | 0 <= i < |issues| && 0 <= j < 5
        ensures (front + block)[5 * i + j] == IssueLines(issues[i])[j]
      {
        if i < |init| {
          assert init[i] == issues[i];
          assert (front + block)[5 * i + j] == front[5 * i + j];
        } else {
          assert (front + block)[5 * i + j] == block[j];
        }
      }
    }
  }

  /** The output of `display_issues`: the sentinel line alone, or five lines per issue. */
  lemma DisplayLayout(issues: seq<Record>)
    requires issues != []
    ensures IsNoIssues(issues) ==> DisplayIssues(issues) == ["No issues found."]
    ensures !IsNoIssues(issues) ==> |DisplayIssues(issues)| == 5 * |issues|
    ensures !IsNoIssues(issues) ==> forall i, j :: 0 <= i < |issues| && 0 <= j < 5 ==>
      DisplayIssues(issues)[5 * i + j] == IssueLines(issues[i])[j]
  {
    AllIssueLinesLayout(issues);
  }

  /** An issue without line numbers or suggestion shows "N/A" for both (tests/test_review_utils.py:286-304). */
  lemma DisplayMissingFields()
    ensures var issue := map["Rule Violated" := "Avoid using global variables",
                             "Issue Description" := "Avoid using global variables"];
      DisplayIssues([issue]) ==
        [ "Rule Violated: Avoid using global variables",
          "Line Number(s): N/A",
          "Issue Description: Avoid using global variables",
          "Suggestion: N/A",
          Separator ]
  {
    var issue := map["Rule Violated" := "Avoid using global variables",
                     "Issue Description" := "Avoid using global variables"];
    assert "Message" !in issue;
    assert "Line Number(s)" !in issue && "Suggestion" !in issue;
    assert Get(issue, "Rule Violated") == "Avoid using global variables";
    assert Get(issue, "Issue Description") == "Avoid using global variables";
    assert AllIssueLines([issue]) == IssueLines(issue) by {
      var none: seq<Record> := [];
      assert [issue][..0] == none;
    }
    RuleViolatedText();
    IssueDescriptionText();
    MissingFieldTexts();
  }

  // Helpers for DisplayMissingFields: the string-literal concatenations it
  // needs, kept apart so that each is checked in a small context.

  lemma RuleViolatedText()
    ensures "Rule Violated: " + "Avoid using global variables" == "Rule Violated: Avoid using global variables"
  {
  }

  lemma IssueDescriptionText()
    ensures "Issue Description: " + "Avoid using global variables" == "Issue Description: Avoid using global variables"
  {
  }

  lemma MissingFieldTexts()
    ensures "Line Number(s): " + "N/A" == "Line Number(s): N/A"
    ensures "Suggestion: " + "N/A" == "Suggestion: N/A"
  {
  }

  /** scripts/review.py:25-26: the status the review exits with. */
  function ReviewExitCode(issues: seq<Record>): (code: nat)
    requires issues != []
    ensures code == 0 <==> IsNoIssues(issues)
  {
    if IsNoIssues(issues) then 0 else 1
  }

  /** On a parsed reply the review fails exactly when some line was recognised. */
  lemma ReviewFailsOnIssues(raw: string)
    ensures ReviewExitCode(FormatResponseSpec(raw)) == 1 <==> Entries(SplitLines(raw)) != []
    ensures Entries(SplitLines(raw)) == [] ==> DisplayIssues(FormatResponseSpec(raw)) == ["No issues found."]
  {
    var lines := SplitLines(raw);
    var es := Entries(lines);
    NoIssuesIff(lines);
    GroupsEmpty(es);
    RecordsWellFormed(es);
  }
}
