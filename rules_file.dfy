/**
 * The rendering inside `load_rules_from_json` (source/io.py): the `rules`
 * list of the decoded file becomes one `"<id>. <description>"` line per rule.
 * Opening and reading the file are not modelled; the file's text is an input,
 * `None` when it cannot be read.
 */
module RulesFile {
  import opened Wrappers
  import opened Text
  import opened Json
  import opened RuleExtraction

  /** What `load_rules_from_json` ends with: the rules text, or `sys.exit(code)` after the handler's message. */
  datatype Outcome = Rendered(text: string) | Exit(code: int)

  /**
   * `f"{rule['id']}. {rule['description']}"`; `None` where Python raises:
   * the rule is not a dict, or lacks one of the two keys.
   */
  function RuleLine(rule: Json): Option<string> {
    if !rule.JObject? then None
    else
      var id := Lookup(rule.members, "id");
      var description := Lookup(rule.members, "description");
      if id.Some? && description.Some? then Some(Str(id.value) + ". " + Str(description.value)) else None
  }

  /** The lines of the generator expression, `None` as soon as one rule raises. */
  function RenderLines(rules: seq<Json>): (r: Option<seq<string>>)
    ensures r.Some? ==> |r.value| == |rules|
  {
    if rules == [] then Some([])
    else
      var lines := RenderLines(rules[..|rules| - 1]);
      var line := RuleLine(rules[|rules| - 1]);
      if lines.Some? && line.Some? then Some(lines.value + [line.value]) else None
  }

  /** `data.get('rules', [])`. */
  function RulesValue(members: seq<(string, Json)>): Json {
    var v := Lookup(members, "rules");
    if v.Some? then v.value else JArray([])
  }

  /**
   * `load_rules_from_json(file_path)`: any exception in the `try` block, an
   * unreadable file, text the decoder rejects, a top-level value without
   * `.get`, a `rules` value that cannot be iterated or a rule without `id`
   * or `description`, ends in exit status 1.
   */
  function LoadRulesFromJson(contents: Option<string>, decode: string -> Option<Json>): (r: Outcome)
    ensures r.Exit? ==> r.code == 1
  {
    if contents.None? then Exit(1)
    else
      var data := decode(contents.value);
      if data.None? || !data.value.JObject? then Exit(1)
      else
        var rules := Iterate(RulesValue(data.value.members));
        if rules.None? then Exit(1)
        else
          var lines := RenderLines(rules.value);
          if lines.None? then Exit(1) else Rendered(Join("\n", lines.value))
  }

  // ---------------------------------------------------------------------
  // Properties
  // ---------------------------------------------------------------------

  /** A rule renders exactly when it is a dict with both keys. */
  lemma RuleLineDefined(rule: Json)
    ensures RuleLine(rule).Some? <==>
      rule.JObject? && HasKey(rule.members, "id") && HasKey(rule.members, "description")
  {
    if rule.JObject? {
      LookupLast(rule.members, "id");
      LookupLast(rule.members, "description");
    }
  }

  /** Every rule renders exactly when each one does. */
  lemma {:induction false} RenderLinesDefined(rules: seq<Json>)
    ensures RenderLines(rules).Some? <==> forall i :: 0 <= i < |rules| ==> RuleLine(rules[i]).Some?
    decreases |rules|
  {
    if rules != [] {
      var init := rules[..|rules| - 1];
      RenderLinesDefined(init);
      assert forall i :: 0 <= i < |init| ==> init[i] == rules[i];
    }
  }

  /** When the rules render, line `i` is rule `i`'s. */
  lemma {:induction false} RenderLinesAt(rules: seq<Json>)
    ensures RenderLines(rules).Some? ==>
      forall i :: 0 <= i < |rules| ==> RuleLine(rules[i]).Some? && RenderLines(rules).value[i] == RuleLine(rules[i]).value
    decreases |rules|
  {
    if rules != [] && RenderLines(rules).Some? {
      var init := rules[..|rules| - 1];
      var lines := RenderLines(init).value;
      var ls := lines + [RuleLine(rules[|rules| - 1]).value];
      assert RenderLines(rules).value == ls;
      RenderLinesAt(init);
      assert forall i :: 0 <= i < |init| ==> init[i] == rules[i] && ls[i] == lines[i];
    }
  }

  /**
   * The file loads exactly when it can be read and decoded to a dict whose
   * `rules` value (a missing one counting as `[]`) iterates over rules that
   * are all dicts with both keys.
   */
  lemma LoadOutcome(contents: Option<string>, decode: string -> Option<Json>)
    ensures LoadRulesFromJson(contents, decode).Rendered? <==>
      contents.Some? && decode(contents.value).Some? && decode(contents.value).value.JObject?
      && Iterate(RulesValue(decode(contents.value).value.members)).Some?
      && var rules := Iterate(RulesValue(decode(contents.value).value.members)).value;
         forall i :: 0 <= i < |rules| ==>
           rules[i].JObject? && HasKey(rules[i].members, "id") && HasKey(rules[i].members, "description")
  {
    if contents.Some? && decode(contents.value).Some? && decode(contents.value).value.JObject? {
      var rules := Iterate(RulesValue(decode(contents.value).value.members));
      if rules.Some? {
        RenderLinesDefined(rules.value);
        forall i | 0 <= i < |rules.value| {
          RuleLineDefined(rules.value[i]);
        }
      }
    }
  }

  /** A file without `rules`, or with an empty list, renders as the empty text. */
  lemma MissingOrEmptyRules(contents: string, decode: string -> Option<Json>, members: seq<(string, Json)>)
    requires decode(contents) == Some(JObject(members))
    requires !HasKey(members, "rules") || Lookup(members, "rules") == Some(JArray([]))
    ensures LoadRulesFromJson(Some(contents), decode) == Rendered("")
  {
    LookupLast(members, "rules");
    assert RulesValue(members) == JArray([]);
  }

  /** A rule in the list that lacks `id` or `description` makes the load exit with status 1. */
  lemma RuleWithoutKeyExits(contents: string, decode: string -> Option<Json>, members: seq<(string, Json)>,
                            rules: seq<Json>, k: nat)
    requires decode(contents) == Some(JObject(members)) && Lookup(members, "rules") == Some(JArray(rules))
    requires k < |rules| && rules[k].JObject?
    requires !HasKey(rules[k].members, "id") || !HasKey(rules[k].members, "description")
    ensures LoadRulesFromJson(Some(contents), decode) == Exit(1)
  {
    RenderLinesDefined(rules);
    RuleLineDefined(rules[k]);
  }

  /** With rule lines free of line breaks, the text splits back into exactly one line per rule, in order. */
  lemma RenderedLines(rules: seq<Json>)
    requires rules != [] && RenderLines(rules).Some?
    requires forall i :: 0 <= i < |rules| ==> '\n' !in RenderLines(rules).value[i]
    ensures SplitOn(Join("\n", RenderLines(rules).value), '\n') == RenderLines(rules).value
    ensures forall i :: 0 <= i < |rules| ==> RuleLine(rules[i]).Some? && RenderLines(rules).value[i] == RuleLine(rules[i]).value
  {
    RenderLinesAt(rules);
    assert "\n" == ['\n'];
    SplitOnJoin(RenderLines(rules).value, '\n');
  }

  /** The line of an aggregated entry is its id, a dot, a space and its description. */
  lemma RuleLineOfAsJson(r: NumberedRule)
    ensures RuleLine(AsJson(r)) == Some(r.id + ". " + r.description)
  {
    LookupPair("id", JString(r.id), "description", JString(r.description));
  }

  /** Lines "1. d1", "2. d2", ... for the descriptions of the list. */
  function NumberedLines(rs: seq<NumberedRule>): (ls: seq<string>)
    ensures |ls| == |rs|
  {
    seq(|rs|, i requires 0 <= i < |rs| => NatToString(i + 1) + ". " + rs[i].description)
  }

  /** A list numbered from 1 renders as lines "1. ", "2. ", ... followed by the descriptions, in order. */
  lemma RenderNumbered(rs: seq<NumberedRule>)
    requires forall k :: 0 <= k < |rs| ==> rs[k].id == NatToString(k + 1)
    ensures RenderLines(AsJsonList(rs)) == Some(NumberedLines(rs))
  {
    var jr := AsJsonList(rs);
    var want := NumberedLines(rs);
    forall i | 0 <= i < |rs| ensures RuleLine(jr[i]) == Some(want[i]) {
      RuleLineOfAsJson(rs[i]);
    }
    RenderLinesDefined(jr);
    RenderLinesAt(jr);
    assert RenderLines(jr).Some?;
    var got := RenderLines(jr).value;
    assert |got| == |want|;
    assert forall i :: 0 <= i < |rs| ==> got[i] == want[i];
    assert got == want;
  }

  /** The list `aggregate_rules` produces renders as lines numbered "1. ", "2. ", ... in order. */
  lemma RenderAggregate(rulesList: seq<seq<Json>>)
    requires Aggregate(rulesList).Some?
    ensures RenderLines(AsJsonList(Aggregate(rulesList).value)) == Some(NumberedLines(Aggregate(rulesList).value))
  {
    AggregateIds(rulesList);
    RenderNumbered(Aggregate(rulesList).value);
  }

  /** The two rules of tests/test_io.py:13, as decoded. */
  function TwoRules(): seq<Json> {
    [JObject([("id", JString("1")), ("description", JString("Rule one"))]),
     JObject([("id", JString("2")), ("description", JString("Rule two"))])]
  }

  /**
   * Helper for TwoRuleLines and TwoRuleFile: the string-literal
   * concatenations they need, kept apart so that each is checked in a small
   * context.
   */
  lemma TwoRuleTexts()
    ensures "1" + ". " + "Rule one" == "1. Rule one"
    ensures "2" + ". " + "Rule two" == "2. Rule two"
    ensures "1. Rule one" + "\n" + "2. Rule two" == "1. Rule one\n2. Rule two"
  {
    assert "1" + ". " + "Rule one" == "1. Rule one";
  }

  lemma TwoRuleLines()
    ensures RenderLines(TwoRules()) == Some(["1. Rule one", "2. Rule two"])
  {
    var rules := TwoRules();
    var one := NumberedRule("1", "Rule one");
    var two := NumberedRule("2", "Rule two");
    assert rules == [AsJson(one), AsJson(two)];
    RuleLineOfAsJson(one);
    RuleLineOfAsJson(two);
    TwoRuleTexts();
    var none: seq<Json> := [];
    assert [rules[0]][..0] == none;
    assert RenderLines(none) == Some([]);
    var first: seq<string> := [];
    assert first + ["1. Rule one"] == ["1. Rule one"];
    assert RenderLines([rules[0]]) == Some(["1. Rule one"]);
    assert rules[..1] == [rules[0]];
    assert ["1. Rule one"] + ["2. Rule two"] == ["1. Rule one", "2. Rule two"];
  }

  /** A file whose only member is a `rules` list loads as that list's lines, or exits when a rule cannot be rendered. */
  lemma RulesListFile(contents: string, decode: string -> Option<Json>, rules: seq<Json>)
    requires decode(contents) == Some(JObject([("rules", JArray(rules))]))
    ensures LoadRulesFromJson(Some(contents), decode) ==
      if RenderLines(rules).Some? then Rendered(Join("\n", RenderLines(rules).value)) else Exit(1)
  {
    var members := [("rules", JArray(rules))];
    assert members[0].0 == "rules";
    assert RulesValue(members) == JArray(rules);
  }

  /** The rules file of tests/test_io.py:13-17 loads as two numbered lines. */
  lemma TwoRuleFile(contents: string, decode: string -> Option<Json>)
    requires decode(contents) == Some(JObject([("rules", JArray(TwoRules()))]))
    ensures LoadRulesFromJson(Some(contents), decode) == Rendered("1. Rule one\n2. Rule two")
  {
    RulesListFile(contents, decode, TwoRules());
    TwoRuleLines();
    var a, b := "1. Rule one", "2. Rule two";
    var lines := [a, b];
    assert lines[1..] == [b];
    assert Join("\n", [b]) == b;
    assert Join("\n", lines) == a + "\n" + b;
    TwoRuleTexts();
    assert RenderLines(TwoRules()).value == lines;
  }
}
