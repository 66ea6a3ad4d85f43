/**
 * `generate_rules` (source/create_rules_utils.py:161-179): chunk the
 * document, ask the model for the rules of every chunk, aggregate them, ask
 * the model to review the aggregate, and return the rules to save.  The
 * model is not modelled: its replies are inputs.  `reply(i, chunk)` is the
 * content of the reply to the prompt for the `i`-th chunk (counted from 0),
 * `None` when the content is `None`; `review(rules)` is the content of the
 * reply to the review prompt for `rules`.
 */
module RuleGeneration {
  import opened Wrappers
  import opened Json
  import opened Chunker
  import opened RuleExtraction

  /** Line 166. */
  const MaxChunkLength: nat := 3000

  /**
   * How `generate_rules` ends: the list stored under `"rules"` in the dict
   * it returns, `sys.exit(1)` after a reply without content (lines 105-107
   * and 155-157), or an exception raised while aggregating.
   */
  datatype Generation = Generated(rules: Json) | Exit(code: int) | Raised

  // ---------------------------------------------------------------------
  // The loop over the chunks, lines 170-174
  // ---------------------------------------------------------------------

  /**
   * `all_rules` after the first `n` chunks: `format_rules` of each reply, in
   * order; `None` once a reply has no content, which ends the process.
   */
  function Collected(chunks: seq<string>, reply: (nat, string) -> Option<string>,
                     decode: string -> Option<Json>, n: nat): (r: Option<seq<Option<Json>>>)
    requires n <= |chunks|
    ensures r.Some? ==> |r.value| == n
  {
    if n == 0 then Some([])
    else
      var before := Collected(chunks, reply, decode, n - 1);
      var content := reply(n - 1, chunks[n - 1]);
      if before.None? || content.None? then None
      else Some(before.value + [FormatRules(content.value, decode)])
  }

  /**
   * The loop completes exactly when every reply has content, and then entry
   * `i` is what `format_rules` makes of the `i`-th reply.
   */
  lemma {:induction false} CollectedAt(chunks: seq<string>, reply: (nat, string) -> Option<string>,
                                       decode: string -> Option<Json>, n: nat)
    requires n <= |chunks|
    ensures Collected(chunks, reply, decode, n).Some? <==> forall i :: 0 <= i < n ==> reply(i, chunks[i]).Some?
    ensures Collected(chunks, reply, decode, n).Some? ==>
      forall i :: 0 <= i < n ==> Collected(chunks, reply, decode, n).value[i] == FormatRules(reply(i, chunks[i]).value, decode)
  {
    if n > 0 {
      var before := Collected(chunks, reply, decode, n - 1);
      var content := reply(n - 1, chunks[n - 1]);
      CollectedAt(chunks, reply, decode, n - 1);
      if before.Some? && content.Some? {
        var all := before.value + [FormatRules(content.value, decode)];
        assert Collected(chunks, reply, decode, n) == Some(all);
        assert forall i :: 0 <= i < n - 1 ==> all[i] == before.value[i];
      }
    }
  }

  /** Once a reply has no content, no later chunk brings the collection back. */
  lemma {:induction false} CollectedStops(chunks: seq<string>, reply: (nat, string) -> Option<string>,
                                          decode: string -> Option<Json>, n: nat, m: nat)
    requires n <= m <= |chunks|
    requires Collected(chunks, reply, decode, n).None?
    ensures Collected(chunks, reply, decode, m).None?
    decreases m - n
  {
    if n < m {
      CollectedStops(chunks, reply, decode, n + 1, m);
    }
  }

  // ---------------------------------------------------------------------
  // What aggregate_rules iterates
  // ---------------------------------------------------------------------

  /**
   * The outer loop of `aggregate_rules` (line 116) over `all_rules`: the
   * elements each chunk's value yields to a `for` loop; `None` where Python
   * raises because a value is `None` or cannot be iterated.
   */
  function ChunkLists(all: seq<Option<Json>>): (r: Option<seq<seq<Json>>>)
    ensures r.Some? ==> |r.value| == |all|
  {
    if all == [] then Some([])
    else
      var before := ChunkLists(all[..|all| - 1]);
      var last := all[|all| - 1];
      if before.Some? && last.Some? && Iterate(last.value).Some? then Some(before.value + [Iterate(last.value).value])
      else None
  }

  /** All chunk values iterate exactly when none is `None` and none is a scalar, and list `i` is chunk `i`'s elements. */
  lemma {:induction false} ChunkListsAt(all: seq<Option<Json>>)
    ensures ChunkLists(all).Some? <==> forall i :: 0 <= i < |all| ==> all[i].Some? && Iterate(all[i].value).Some?
    ensures ChunkLists(all).Some? ==> forall i :: 0 <= i < |all| ==> ChunkLists(all).value[i] == Iterate(all[i].value).value
  {
    if all != [] {
      var init := all[..|all| - 1];
      ChunkListsAt(init);
      assert forall i :: 0 <= i < |init| ==> init[i] == all[i];
    }
  }

  /** Finding 2, as written: one chunk whose reply `format_rules` rejected makes the aggregation raise. */
  lemma FailedChunkAborts(all: seq<Option<Json>>, i: nat)
    requires i < |all| && all[i].None?
    ensures ChunkLists(all).None?
  {
    ChunkListsAt(all);
  }

  /**
   * `format_rules` gave Python's `None` for the chunk: it rejected the reply
   * (`None` here), or the reply's `rules` member was `null`.
   */
  predicate NoRules(x: Option<Json>) {
    x.None? || x.value.JNull?
  }

  /**
   * Finding 2, corrected by the caller-side guard `if rules is None:
   * continue` before line 117: the lists of the chunks for which
   * `format_rules` gave a value other than `None`, every other chunk being
   * skipped; a value that cannot be iterated still raises.
   */
  function SuccessfulLists(all: seq<Option<Json>>): Option<seq<seq<Json>>> {
    if all == [] then Some([])
    else
      var before := SuccessfulLists(all[..|all| - 1]);
      var last := all[|all| - 1];
      if before.None? then None
      else if NoRules(last) then before
      else if Iterate(last.value).Some? then Some(before.value + [Iterate(last.value).value])
      else None
  }

  lemma {:induction false} SuccessfulListsAppend(a: seq<Option<Json>>, b: seq<Option<Json>>)
    ensures SuccessfulLists(a + b) ==
      if SuccessfulLists(a).Some? && SuccessfulLists(b).Some? then Some(SuccessfulLists(a).value + SuccessfulLists(b).value)
      else None
    decreases |b|
  {
    if b == [] {
      assert a + b == a;
      if SuccessfulLists(a).Some? {
        assert SuccessfulLists(a).value + [] == SuccessfulLists(a).value;
      }
    } else {
      var init := b[..|b| - 1];
      assert (a + b)[..|a + b| - 1] == a + init;
      assert (a + b)[|a + b| - 1] == b[|b| - 1];
      SuccessfulListsAppend(a, init);
      if SuccessfulLists(a).Some? && SuccessfulLists(init).Some? {
        var x, y := SuccessfulLists(a).value, SuccessfulLists(init).value;
        var last := b[|b| - 1];
        if last.Some? && Iterate(last.value).Some? {
          assert x + (y + [Iterate(last.value).value]) == (x + y) + [Iterate(last.value).value];
        }
      }
    }
  }

  /** A chunk without rules can be removed without changing the lists. */
  lemma SkipsFailedChunk(a: seq<Option<Json>>, x: Option<Json>, b: seq<Option<Json>>)
    requires NoRules(x)
    ensures SuccessfulLists(a + [x] + b) == SuccessfulLists(a + b)
  {
    var none: seq<Option<Json>> := [];
    assert [x] == none + [x];
    assert SuccessfulLists([x]) == Some([]);
    SuccessfulListsAppend(a, [x]);
    SuccessfulListsAppend(a + [x], b);
    SuccessfulListsAppend(a, b);
    if SuccessfulLists(a).Some? {
      assert SuccessfulLists(a).value + [] == SuccessfulLists(a).value;
    }
  }

  /** Where the function as written gets the lists, the corrected one gets the same lists. */
  lemma {:induction false} SuccessfulListsAgree(all: seq<Option<Json>>)
    requires ChunkLists(all).Some?
    ensures SuccessfulLists(all) == ChunkLists(all)
  {
    if all != [] {
      SuccessfulListsAgree(all[..|all| - 1]);
    }
  }

  // ---------------------------------------------------------------------
  // generate_rules
  // ---------------------------------------------------------------------

  /** The rules the function has aggregated, when every step up to the review succeeded. */
  function Aggregated(chunks: seq<string>, reply: (nat, string) -> Option<string>,
                      decode: string -> Option<Json>): Option<seq<NumberedRule>>
  {
    var all := Collected(chunks, reply, decode, |chunks|);
    if all.None? then None
    else
      var lists := ChunkLists(all.value);
      if lists.None? then None else Aggregate(lists.value)
  }

  /**
   * `generate_rules(markdown_content)` as written: the review's result is
   * computed and then dropped, and the aggregated rules are returned.
   */
  function Generate(markdown: string, reply: (nat, string) -> Option<string>,
                    review: seq<NumberedRule> -> Option<string>, decode: string -> Option<Json>): Generation
  {
    var chunks := SplitMarkdown(markdown, MaxChunkLength);
    if Collected(chunks, reply, decode, |chunks|).None? then Exit(1)
    else
      var aggregated := Aggregated(chunks, reply, decode);
      if aggregated.None? then Raised
      else if review(aggregated.value).None? then Exit(1)
      else Generated(JArray(AsJsonList(aggregated.value)))
  }

  /**
   * Finding 1, as written: even when the review's reply keeps no rule at
   * all, the function returns every aggregated rule.
   */
  lemma ReviewIsDiscarded(markdown: string, reply: (nat, string) -> Option<string>,
                          review: seq<NumberedRule> -> Option<string>, decode: string -> Option<Json>,
                          rs: seq<NumberedRule>, text: string)
    requires var chunks := SplitMarkdown(markdown, MaxChunkLength);
      Collected(chunks, reply, decode, |chunks|).Some? && Aggregated(chunks, reply, decode) == Some(rs)
    requires rs != []
    requires review(rs) == Some(text) && '{' in text
    requires decode(JsonText(text).value) == Some(JObject([("rules", JArray([]))]))
    ensures FormatRules(text, decode) == Some(JArray([]))
    ensures Generate(markdown, reply, review, decode) == Generated(JArray(AsJsonList(rs)))
    ensures Generate(markdown, reply, review, decode) != Generated(JArray([]))
  {
    RulesMemberIsUnchecked(text, decode, JArray([]));
    assert |AsJsonList(rs)| > 0;
  }

  /**
   * Finding 1 corrected, with finding 2 corrected along with it: the rules
   * returned are the review's (`None` from `format_rules` saved as `null`),
   * and a chunk for which `format_rules` gave `None` is skipped, as the
   * guard `if rules is None: continue` before line 117 would skip it.
   */
  function GenerateReviewed(markdown: string, reply: (nat, string) -> Option<string>,
                            review: seq<NumberedRule> -> Option<string>, decode: string -> Option<Json>): Generation
  {
    var chunks := SplitMarkdown(markdown, MaxChunkLength);
    var all := Collected(chunks, reply, decode, |chunks|);
    if all.None? then Exit(1)
    else
      var lists := SuccessfulLists(all.value);
      var aggregated := if lists.Some? then Aggregate(lists.value) else None;
      if aggregated.None? then Raised
      else
        var content := review(aggregated.value);
        if content.None? then Exit(1)
        else
          var corrected := FormatRules(content.value, decode);
          Generated(if corrected.Some? then corrected.value else JNull)
  }

  /**
   * The corrected function returns exactly the rules the review's reply
   * holds, for every run whose corrected aggregation succeeds (failed chunks
   * skipped) and every reply object; in particular, a review that keeps no
   * rule yields no rule.
   */
  lemma ReviewIsKept(markdown: string, reply: (nat, string) -> Option<string>,
                     review: seq<NumberedRule> -> Option<string>, decode: string -> Option<Json>,
                     rs: seq<NumberedRule>, text: string, v: Json)
    requires var chunks := SplitMarkdown(markdown, MaxChunkLength);
      var all := Collected(chunks, reply, decode, |chunks|);
      && all.Some?
      && SuccessfulLists(all.value).Some?
      && Aggregate(SuccessfulLists(all.value).value) == Some(rs)
    requires review(rs) == Some(text) && FormatRules(text, decode) == Some(v)
    ensures GenerateReviewed(markdown, reply, review, decode) == Generated(v)
  {
  }


  /**
   * The corrected function skips a chunk for which `format_rules` gave
   * `None`: the rules aggregated from the other chunks are the ones reviewed.
   */
  lemma FailedChunkSkipped(all: seq<Option<Json>>, i: nat)
    requires i < |all| && NoRules(all[i])
    ensures SuccessfulLists(all) == SuccessfulLists(all[..i] + all[i + 1..])
  {
    assert all == all[..i] + [all[i]] + all[i + 1..];
    SkipsFailedChunk(all[..i], all[i], all[i + 1..]);
  }

  // ---------------------------------------------------------------------
  // The method
  // ---------------------------------------------------------------------

  /** `generate_rules(markdown_content)`, the loop over the chunks included. */
  method GenerateRules(markdown: string, reply: (nat, string) -> Option<string>,
                       review: seq<NumberedRule> -> Option<string>, decode: string -> Option<Json>)
    returns (result: Generation)
    ensures result == Generate(markdown, reply, review, decode)
  {
    var chunks := SplitMarkdownIntoSections(markdown, MaxChunkLength);
    var allRules: seq<Option<Json>> := [];
    for idx := 0 to |chunks|
      invariant Collected(chunks, reply, decode, idx) == Some(allRules)
    {
      var content := reply(idx, chunks[idx]);
      if content.None? {
        CollectedStops(chunks, reply, decode, idx + 1, |chunks|);
        return Exit(1);
      }
      allRules := allRules + [FormatRules(content.value, decode)];
    }
    var lists := ChunkLists(allRules);
    if lists.None? {
      return Raised;
    }
    var aggregated := AggregateRules(lists.value);
    if aggregated.None? {
      return Raised;
    }
    var corrected := review(aggregated.value);
    if corrected.None? {
      return Exit(1);
    }
    result := Generated(JArray(AsJsonList(aggregated.value)));
  }
}
