/**
 * The two rule-handling steps of source/create_rules_utils.py that do not talk
 * to the language model: `format_rules`, which pulls the JSON object out of
 * a model reply and returns its `rules` member, and `aggregate_rules`, which
 * merges the rule lists of all chunks, drops repeated descriptions and
 * renumbers what is left.
 */
module RuleExtraction {
  import opened Wrappers
  import opened Text
  import opened Json

  // ---------------------------------------------------------------------
  // format_rules
  // ---------------------------------------------------------------------

  /**
   * Lines 48-52: the text from the first `{` through the last `}`.  `None`
   * only when there is no `{`: `rfind` returns at least -1, so the end
   * position `rfind + 1` is never -1 and that half of the test never fires.
   * When no `}` follows the first `{` the Python slice is empty.
   */
  function JsonText(raw: string): Option<string> {
    var start := Find(raw, '{');
    var end := RFind(raw, '}') + 1;
    if start == -1 || end == -1 then None
    else Some(Slice(raw, start, end))
  }

  /**
   * `format_rules(raw_response)`: the `rules` member of the decoded object,
   * whatever its type; `None` when there is no `{`, when decoding fails, when
   * the value is not an object or when it has no `rules` key (the exception
   * handler falls off the end of the function).
   */
  function FormatRules(raw: string, decode: string -> Option<Json>): Option<Json> {
    match JsonText(raw)
    case None => None
    case Some(text) =>
      match decode(text)
      case Some(JObject(members)) => Lookup(members, "rules")
      case _ => None
  }

  /** The end test at line 50 is dead: the extracted text is missing exactly when there is no `{`. */
  lemma JsonTextMissing(raw: string)
    ensures JsonText(raw).None? <==> '{' !in raw
  {
  }

  /**
   * With a `}` after the first `{`, the text runs from the first `{` to the
   * last `}`, both included.
   */
  lemma JsonTextSpan(raw: string, i: nat, j: nat)
    requires i < j < |raw| && raw[i] == '{' && raw[j] == '}'
    requires forall m :: 0 <= m < i ==> raw[m] != '{'
    requires forall m :: j < m < |raw| ==> raw[m] != '}'
    ensures JsonText(raw) == Some(raw[i..j + 1])
    ensures raw[i..j + 1][0] == '{' && raw[i..j + 1][j - i] == '}'
  {
  }

  /**
   * When no `}` comes after the first `{` the slice is empty, so the reply is
   * rejected exactly as the decoder rejects the empty text (`json.loads("")`
   * raises).
   */
  lemma NoClosingBrace(raw: string, decode: string -> Option<Json>)
    requires '{' in raw
    requires forall k :: Find(raw, '{') <= k < |raw| ==> raw[k] != '}'
    requires decode("").None?
    ensures JsonText(raw) == Some("")
    ensures FormatRules(raw, decode).None?
  {
    var g := RFind(raw, '}');
    assert g < Find(raw, '{');
  }

  /**
   * The outcomes of `format_rules`: a value exactly when the text decodes to
   * an object with a `rules` key, and then the last `rules` member.
   */
  lemma FormatRulesOutcome(raw: string, decode: string -> Option<Json>)
    ensures FormatRules(raw, decode).Some? <==>
      '{' in raw && decode(JsonText(raw).value).Some? && decode(JsonText(raw).value).value.JObject?
      && HasKey(decode(JsonText(raw).value).value.members, "rules")
    ensures FormatRules(raw, decode).Some? ==>
      FormatRules(raw, decode) == Lookup(decode(JsonText(raw).value).value.members, "rules")
  {
    if '{' in raw {
      var d := decode(JsonText(raw).value);
      if d.Some? && d.value.JObject? {
        var members := d.value.members;
        LookupLast(members, "rules");
      }
    }
  }

  /** The `rules` member is returned without checking that it is a list. */
  lemma RulesMemberIsUnchecked(raw: string, decode: string -> Option<Json>, v: Json)
    requires '{' in raw
    requires decode(JsonText(raw).value) == Some(JObject([("rules", v)]))
    ensures FormatRules(raw, decode) == Some(v)
  {
    assert Lookup([("rules", v)], "rules") == Some(v);
  }

  // ---------------------------------------------------------------------
  // aggregate_rules
  // ---------------------------------------------------------------------

  /** One entry of the aggregated list, `{"id": str(idx), "description": description}`. */
  datatype NumberedRule = NumberedRule(id: string, description: string)

  /** The entry as the dict the rules file stores. */
  function AsJson(r: NumberedRule): Json {
    JObject([("id", JString(r.id)), ("description", JString(r.description))])
  }

  /** The entries of the aggregated list as the dicts the rules file holds. */
  function AsJsonList(rs: seq<NumberedRule>): (r: seq<Json>)
    ensures |r| == |rs|
  {
    seq(|rs|, i requires 0 <= i < |rs| => AsJson(rs[i]))
  }

  /** The rules of all chunks in order: the nested loop at lines 116-117. */
  function Flatten(rulesList: seq<seq<Json>>): seq<Json> {
    if rulesList == [] then []
    else Flatten(rulesList[..|rulesList| - 1]) + rulesList[|rulesList| - 1]
  }

  /**
   * Line 118, `rule.get('description', '').strip()`: `None` where Python
   * raises, that is when the rule is not a dict or its description is not a
   * string.
   */
  function DescriptionOf(rule: Json): Option<string> {
    if !rule.JObject? then None
    else match Lookup(rule.members, "description")
      case None => Some("")
      case Some(JString(s)) => Some(Strip(s))
      case Some(_) => None
  }

  /** No rule makes line 118 raise. */
  predicate Describable(rules: seq<Json>) {
    forall k :: 0 <= k < |rules| ==> DescriptionOf(rules[k]).Some?
  }

  /** The stripped descriptions of the rules, in order. */
  function Descriptions(rules: seq<Json>): (ds: seq<string>)
    requires Describable(rules)
    ensures |ds| == |rules|
  {
    seq(|rules|, k requires 0 <= k < |rules| => DescriptionOf(rules[k]).value)
  }

  /**
   * The keys of `unique_rules` in insertion order: each non-empty
   * description the first time it is seen (lines 119-120).
   */
  function Dedup(ds: seq<string>): seq<string> {
    if ds == [] then []
    else
      var u := Dedup(ds[..|ds| - 1]);
      var d := ds[|ds| - 1];
      if d != "" && d !in u then u + [d] else u
  }

  /** Lines 122-127: the descriptions numbered from 1. */
  function Numbered(ds: seq<string>): (r: seq<NumberedRule>)
    ensures |r| == |ds|
  {
    seq(|ds|, i requires 0 <= i < |ds| => NumberedRule(NatToString(i + 1), ds[i]))
  }

  /** `aggregate_rules(rules_list)`, `None` standing for the exception a malformed rule raises. */
  function Aggregate(rulesList: seq<seq<Json>>): Option<seq<NumberedRule>> {
    var rules := Flatten(rulesList);
    if Describable(rules) then Some(Numbered(Dedup(Descriptions(rules)))) else None
  }

  // Structural facts used by the method

  lemma FlattenSnoc(rulesList: seq<seq<Json>>, i: nat)
    requires i < |rulesList|
    ensures Flatten(rulesList[..i + 1]) == Flatten(rulesList[..i]) + rulesList[i]
  {
    assert rulesList[..i + 1][..i] == rulesList[..i];
  }

  lemma {:induction false} FlattenAppend(a: seq<seq<Json>>, b: seq<seq<Json>>)
    ensures Flatten(a + b) == Flatten(a) + Flatten(b)
    decreases |b|
  {
    if b == [] {
      assert a + b == a;
    } else {
      var init := b[..|b| - 1];
      var last := b[|b| - 1];
      assert (a + b)[..|a + b| - 1] == a + init;
      assert (a + b)[|a + b| - 1] == last;
      assert Flatten(a + b) == Flatten(a + init) + last;
      FlattenAppend(a, init);
      assert Flatten(b) == Flatten(init) + last;
    }
  }

  /** Rule `j` of chunk `i` sits in the flattened list right after the rules of the chunks before. */
  lemma FlattenAt(rulesList: seq<seq<Json>>, i: nat, j: nat)
    requires i < |rulesList| && j < |rulesList[i]|
    ensures |Flatten(rulesList[..i])| + j < |Flatten(rulesList)|
    ensures Flatten(rulesList)[|Flatten(rulesList[..i])| + j] == rulesList[i][j]
  {
    FlattenSnoc(rulesList, i);
    FlattenAppend(rulesList[..i + 1], rulesList[i + 1..]);
    assert rulesList[..i + 1] + rulesList[i + 1..] == rulesList;
  }

  lemma DescriptionsSnoc(rules: seq<Json>, rule: Json)
    requires Describable(rules) && DescriptionOf(rule).Some?
    ensures Describable(rules + [rule])
    ensures Descriptions(rules + [rule]) == Descriptions(rules) + [DescriptionOf(rule).value]
  {
    assert forall k :: 0 <= k < |rules| ==> (rules + [rule])[k] == rules[k];
  }

  lemma DedupSnoc(ds: seq<string>, d: string)
    ensures Dedup(ds + [d]) == if d != "" && d !in Dedup(ds) then Dedup(ds) + [d] else Dedup(ds)
  {
    assert (ds + [d])[..|ds|] == ds;
  }

  // ---------------------------------------------------------------------
  // What the aggregated list is
  // ---------------------------------------------------------------------

  /** A description line 118 yields is stripped. */
  lemma DescriptionStripped(rule: Json)
    requires DescriptionOf(rule).Some?
    ensures IsStripped(DescriptionOf(rule).value)
  {
    if Lookup(rule.members, "description").None? {
      assert DescriptionOf(rule).value == "";
    }
  }

  /** The keys kept are exactly the non-empty descriptions, each once. */
  lemma {:induction false} DedupMembers(ds: seq<string>)
    ensures forall x :: x in Dedup(ds) <==> x in ds && x != ""
    ensures forall a, b :: 0 <= a < b < |Dedup(ds)| ==> Dedup(ds)[a] != Dedup(ds)[b]
    decreases |ds|
  {
    if ds != [] {
      DedupMembers(ds[..|ds| - 1]);
      assert ds == ds[..|ds| - 1] + [ds[|ds| - 1]];
    }
  }

  /** The first position of `x` in `ds`. */
  function IndexOf(ds: seq<string>, x: string): (k: nat)
    requires x in ds
    ensures k < |ds| && ds[k] == x
    ensures forall m :: 0 <= m < k ==> ds[m] != x
  {
    if ds[0] == x then 0 else 1 + IndexOf(ds[1..], x)
  }

  lemma IndexOfSnoc(ds: seq<string>, d: string, x: string)
    requires x in ds
    ensures IndexOf(ds + [d], x) == IndexOf(ds, x)
  {
    assert forall m :: 0 <= m < |ds| ==> (ds + [d])[m] == ds[m];
  }

  /** The kept descriptions are in the order of their first occurrence. */
  lemma {:induction false} DedupFirstSeenOrder(ds: seq<string>)
    ensures forall a :: 0 <= a < |Dedup(ds)| ==> Dedup(ds)[a] in ds
    ensures forall a, b :: 0 <= a < b < |Dedup(ds)| ==> IndexOf(ds, Dedup(ds)[a]) < IndexOf(ds, Dedup(ds)[b])
    decreases |ds|
  {
    if ds != [] {
      var init := ds[..|ds| - 1];
      var d := ds[|ds| - 1];
      var u := Dedup(init);
      DedupFirstSeenOrder(init);
      DedupMembers(init);
      assert ds == init + [d];
      forall a | 0 <= a < |u| ensures IndexOf(ds, u[a]) == IndexOf(init, u[a]) {
        IndexOfSnoc(init, d, u[a]);
      }
      if d != "" && d !in u {
        assert forall m :: 0 <= m < |init| ==> ds[m] == init[m];
        assert IndexOf(ds, d) == |init|;
      }
    }
  }

  /** Deduplicating a list whose entries are distinct and non-empty changes nothing. */
  lemma {:induction false} DedupOfDistinct(ds: seq<string>)
    requires forall k :: 0 <= k < |ds| ==> ds[k] != ""
    requires forall a, b :: 0 <= a < b < |ds| ==> ds[a] != ds[b]
    ensures Dedup(ds) == ds
    decreases |ds|
  {
    if ds != [] {
      var init := ds[..|ds| - 1];
      var d := ds[|ds| - 1];
      assert forall k :: 0 <= k < |init| ==> init[k] == ds[k];
      DedupOfDistinct(init);
      assert forall k :: 0 <= k < |init| ==> init[k] != d;
      assert ds == init + [d];
      DedupSnoc(init, d);
    }
  }

  /** The ids are "1".."n" in order and each entry carries the kept description at its place. */
  lemma NumberedIds(ds: seq<string>)
    ensures forall k :: 0 <= k < |ds| ==>
      Numbered(ds)[k].id == NatToString(k + 1) && DecimalValue(Numbered(ds)[k].id) == k + 1
      && Numbered(ds)[k].description == ds[k]
  {
    forall k | 0 <= k < |ds| ensures DecimalValue(Numbered(ds)[k].id) == k + 1 {
      DecimalOfNatToString(k + 1);
    }
  }

  /** The aggregated ids are exactly "1".."n", in order. */
  lemma AggregateIds(rulesList: seq<seq<Json>>)
    requires Aggregate(rulesList).Some?
    ensures forall k :: 0 <= k < |Aggregate(rulesList).value| ==>
      Aggregate(rulesList).value[k].id == NatToString(k + 1)
      && DecimalValue(Aggregate(rulesList).value[k].id) == k + 1
  {
    NumberedIds(Dedup(Descriptions(Flatten(rulesList))));
  }

  /** The aggregated descriptions are stripped, non-empty and pairwise distinct. */
  lemma AggregateDescriptions(rulesList: seq<seq<Json>>)
    requires Aggregate(rulesList).Some?
    ensures forall k :: 0 <= k < |Aggregate(rulesList).value| ==>
      Aggregate(rulesList).value[k].description != "" && IsStripped(Aggregate(rulesList).value[k].description)
    ensures forall a, b :: 0 <= a < b < |Aggregate(rulesList).value| ==>
      Aggregate(rulesList).value[a].description != Aggregate(rulesList).value[b].description
  {
    var rules := Flatten(rulesList);
    var ds := Descriptions(rules);
    var u := Dedup(ds);
    var rs := Aggregate(rulesList).value;
    assert rs == Numbered(u);
    NumberedIds(u);
    DedupMembers(ds);
    forall k | 0 <= k < |u| ensures u[k] != "" && IsStripped(u[k]) {
      assert u[k] in u;
      var j :| 0 <= j < |ds| && ds[j] == u[k];
      DescriptionStripped(rules[j]);
    }
    assert forall k :: 0 <= k < |rs| ==> rs[k].description == u[k];
  }

  /**
   * The aggregated descriptions are in the order in which they first occur
   * among the input rules, and a description is there exactly when some
   * input rule has it and it is not blank.
   */
  lemma AggregateFirstSeen(rulesList: seq<seq<Json>>)
    requires Aggregate(rulesList).Some?
    ensures var rs := Aggregate(rulesList).value;
      var ds := Descriptions(Flatten(rulesList));
      && (forall a :: 0 <= a < |rs| ==> rs[a].description in ds)
      && (forall a, b :: 0 <= a < b < |rs| ==> IndexOf(ds, rs[a].description) < IndexOf(ds, rs[b].description))
  {
    var ds := Descriptions(Flatten(rulesList));
    NumberedIds(Dedup(ds));
    DedupFirstSeenOrder(ds);
  }

  /** Some rule's stripped description is `x`. */
  predicate SomeRuleSays(rules: seq<Json>, x: string) {
    exists j :: 0 <= j < |rules| && DescriptionOf(rules[j]) == Some(x)
  }

  /** Some aggregated entry carries the description `x`. */
  predicate Lists(rs: seq<NumberedRule>, x: string) {
    exists k :: 0 <= k < |rs| && rs[k].description == x
  }

  /** A description is kept exactly when some rule has it and it is not blank. */
  lemma KeptDescription(rules: seq<Json>, x: string)
    requires Describable(rules)
    ensures x in Dedup(Descriptions(rules)) <==> x != "" && SomeRuleSays(rules, x)
  {
    var ds := Descriptions(rules);
    DedupMembers(ds);
    if x in ds {
      var j :| 0 <= j < |ds| && ds[j] == x;
      assert DescriptionOf(rules[j]) == Some(x);
    }
    if SomeRuleSays(rules, x) {
      var j :| 0 <= j < |rules| && DescriptionOf(rules[j]) == Some(x);
      assert ds[j] == x;
    }
  }

  /** The numbered list carries exactly the descriptions it numbers. */
  lemma ListsNumbered(ds: seq<string>, x: string)
    ensures Lists(Numbered(ds), x) <==> x in ds
  {
    if x in ds {
      var k :| 0 <= k < |ds| && ds[k] == x;
      assert Numbered(ds)[k].description == x;
    }
  }

  /** Every input rule with a non-blank description is represented, and nothing else is. */
  lemma AggregateKeepsEveryDescription(rulesList: seq<seq<Json>>, x: string)
    requires Aggregate(rulesList).Some?
    ensures Lists(Aggregate(rulesList).value, x) <==> x != "" && SomeRuleSays(Flatten(rulesList), x)
  {
    var rules := Flatten(rulesList);
    var u := Dedup(Descriptions(rules));
    assert Aggregate(rulesList).value == Numbered(u);
    ListsNumbered(u, x);
    KeptDescription(rules, x);
  }

  /** The dict of an aggregated entry yields its description again. */
  lemma DescriptionOfAsJson(r: NumberedRule)
    requires IsStripped(r.description)
    ensures DescriptionOf(AsJson(r)) == Some(r.description)
  {
    LookupPair("id", JString(r.id), "description", JString(r.description));
    StrippedIsFixpoint(r.description);
  }

  /** The dicts of a numbered list yield its descriptions again. */
  lemma DescriptionsOfAsJsonList(rs: seq<NumberedRule>)
    requires forall k :: 0 <= k < |rs| ==> IsStripped(rs[k].description)
    ensures Describable(AsJsonList(rs))
    ensures forall k :: 0 <= k < |rs| ==> Descriptions(AsJsonList(rs))[k] == rs[k].description
  {
    forall k | 0 <= k < |rs| ensures DescriptionOf(AsJsonList(rs)[k]) == Some(rs[k].description) {
      DescriptionOfAsJson(rs[k]);
    }
  }

  /** Aggregating the aggregated list again, as one chunk, gives it back. */
  lemma AggregateIdempotent(rulesList: seq<seq<Json>>)
    requires Aggregate(rulesList).Some?
    ensures Aggregate([AsJsonList(Aggregate(rulesList).value)]) == Aggregate(rulesList)
  {
    var rs := Aggregate(rulesList).value;
    var again := AsJsonList(rs);
    AggregateDescriptions(rulesList);
    AggregateIds(rulesList);
    var none: seq<seq<Json>> := [];
    assert [again][..0] == none;
    assert Flatten([again]) == again;
    DescriptionsOfAsJsonList(rs);
    var descs := Descriptions(again);
    DedupOfDistinct(descs);
    assert Numbered(descs) == rs;
  }

  /** A rule whose only member is its description. */
  function DescribedAs(d: string): Json {
    JObject([("description", JString(d))])
  }

  lemma DescribedAsDescription(d: string)
    requires IsStripped(d)
    ensures DescriptionOf(DescribedAs(d)) == Some(d)
  {
    assert DescribedAs(d).members[0].0 == "description";
    StrippedIsFixpoint(d);
  }

  lemma DedupRepeat(a: string, b: string)
    requires a != "" && b != "" && a != b
    ensures Dedup([a, b, a]) == [a, b]
  {
    var nothing: seq<string> := [];
    assert [a, b, a][..2] == [a, b] && [a, b][..1] == [a] && [a][..0] == nothing;
    assert Dedup([a]) == [a];
    assert Dedup([a, b]) == [a, b];
  }

  lemma NumberedPair(a: string, b: string)
    ensures Numbered([a, b]) == [NumberedRule("1", a), NumberedRule("2", b)]
  {
    assert DigitChar(1) == '1' && DigitChar(2) == '2';
    assert NatToString(1) == "1" && NatToString(2) == "2";
    var want := [NumberedRule("1", a), NumberedRule("2", b)];
    assert Numbered([a, b])[0] == want[0] && Numbered([a, b])[1] == want[1];
  }

  /**
   * Rules saying `a`, `b` and `a` again aggregate to "1" for `a` and "2" for
   * `b`: the first occurrence wins and the order of first sight is kept.
   */
  lemma DuplicateDescriptionExample(a: string, b: string)
    requires IsStripped(a) && IsStripped(b) && a != "" && b != "" && a != b
    ensures Aggregate([[DescribedAs(a), DescribedAs(b), DescribedAs(a)]])
      == Some([NumberedRule("1", a), NumberedRule("2", b)])
  {
    var rules := [DescribedAs(a), DescribedAs(b), DescribedAs(a)];
    DescribedAsDescription(a);
    DescribedAsDescription(b);
    var none: seq<seq<Json>> := [];
    assert [rules][..0] == none;
    assert Flatten([rules]) == rules;
    assert Describable(rules);
    assert Descriptions(rules) == [a, b, a];
    DedupRepeat(a, b);
    NumberedPair(a, b);
  }

  /**
   * The state of the first loop after the rules `rules`: none of them raised,
   * `order` holds the dict's keys in insertion order and `seen` the same keys
   * as a set.
   */
  predicate Scanned(rules: seq<Json>, order: seq<string>, seen: set<string>) {
    Describable(rules) && order == Dedup(Descriptions(rules)) && seen == set x | x in order
  }

  /** One pass of the inner loop body: the rule's description joins the keys when new. */
  lemma ScanStep(before: seq<Json>, rules: seq<Json>, j: nat, order: seq<string>, seen: set<string>, d: string)
    requires j < |rules| && Scanned(before + rules[..j], order, seen)
    requires DescriptionOf(rules[j]) == Some(d)
    ensures d != "" && d !in seen ==> Scanned(before + rules[..j + 1], order + [d], seen + {d})
    ensures !(d != "" && d !in seen) ==> Scanned(before + rules[..j + 1], order, seen)
  {
    var xs := before + rules[..j];
    var ys := before + rules[..j + 1];
    assert ys == xs + [rules[j]];
    DescriptionsSnoc(xs, rules[j]);
    var ds := Descriptions(xs);
    assert Descriptions(ys) == ds + [d];
    DedupSnoc(ds, d);
    assert order == Dedup(ds);
    assert seen == set x | x in order;
  }

  /** A rule whose description cannot be read makes the whole aggregation fail. */
  lemma UndescribableRule(rulesList: seq<seq<Json>>, i: nat, j: nat)
    requires i < |rulesList| && j < |rulesList[i]| && DescriptionOf(rulesList[i][j]).None?
    ensures Aggregate(rulesList).None?
  {
    FlattenAt(rulesList, i, j);
  }

  /** After the inner loop over chunk `i`, the rules seen are those of chunks `0..i`. */
  lemma ChunkDone(rulesList: seq<seq<Json>>, i: nat)
    requires i < |rulesList|
    ensures Flatten(rulesList[..i]) + rulesList[i][..|rulesList[i]|] == Flatten(rulesList[..i + 1])
  {
    FlattenSnoc(rulesList, i);
    assert rulesList[i][..|rulesList[i]|] == rulesList[i];
  }

  lemma NumberedSnoc(ds: seq<string>, k: nat)
    requires k < |ds|
    ensures Numbered(ds[..k + 1]) == Numbered(ds[..k]) + [NumberedRule(NatToString(k + 1), ds[k])]
  {
  }

  // ---------------------------------------------------------------------
  // The method
  // ---------------------------------------------------------------------

  /**
   * `aggregate_rules(rules_list)`: the nested loop fills the dict keyed by
   * description (here its insertion-ordered keys and their set), then the
   * second loop numbers them.  The suggestion the dict stores is never read
   * and is not kept.
   */
  method AggregateRules(rulesList: seq<seq<Json>>) returns (result: Option<seq<NumberedRule>>)
    ensures result == Aggregate(rulesList)
  {
    var order: seq<string> := [];
    var seen: set<string> := {};
    for i := 0 to |rulesList|
      invariant Scanned(Flatten(rulesList[..i]), order, seen)
    {
      var rules := rulesList[i];
      ghost var before := Flatten(rulesList[..i]);
      assert before + rules[..0] == before;
      for j := 0 to |rules|
        invariant Scanned(before + rules[..j], order, seen)
      {
        var description := DescriptionOf(rules[j]);
        if description.None? {
          UndescribableRule(rulesList, i, j);
          return None;
        }
        var d := description.value;
        ScanStep(before, rules, j, order, seen, d);
        if d != "" && d !in seen {
          order := order + [d];
          seen := seen + {d};
        }
      }
      ChunkDone(rulesList, i);
    }
    assert rulesList[..|rulesList|] == rulesList;
    var aggregated: seq<NumberedRule> := [];
    for k := 0 to |order|
      invariant aggregated == Numbered(order[..k])
    {
      NumberedSnoc(order, k);
      aggregated := aggregated + [NumberedRule(NatToString(k + 1), order[k])];
    }
    assert order[..|order|] == order;
    result := Some(aggregated);
  }
}
