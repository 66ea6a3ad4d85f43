/**
 * Where the combining loop of `split_markdown_into_sections`
 * (source/create_rules_utils.py:24-39) may cut: only between sections, or
 * inside a section it force-splits.  The chunks are described by groups that
 * tile the formatted sections in order.
 */
module ChunkGroups {
  import opened Text
  import opened Chunker

  /**
   * How a stretch of consecutive sections becomes chunks: sections `lo` to
   * `hi - 1` joined by `"\n"` into one chunk (after a leading `"\n"` when the
   * buffer they were appended to was empty), or the single section `at`
   * force-split into slices.
   */
  datatype Group =
    | Joined(lead: bool, lo: nat, hi: nat)
    | Forced(at: nat)

  function Lo(g: Group): nat {
    match g
    case Joined(_, lo, _) => lo
    case Forced(k) => k
  }

  function Hi(g: Group): nat {
    match g
    case Joined(_, _, hi) => hi
    case Forced(k) => k + 1
  }

  /** The groups cover the sections `0 .. n - 1` in order, each a non-empty stretch. */
  predicate Tiles(gs: seq<Group>, n: nat)
    decreases |gs|
  {
    if gs == [] then n == 0
    else
      var g := gs[|gs| - 1];
      Lo(g) < Hi(g) == n && Tiles(gs[..|gs| - 1], Lo(g))
  }

  /** The buffer built from the sections `xs`. */
  function RunChunk(lead: bool, xs: seq<string>): string {
    (if lead then "\n" else "") + Join("\n", xs)
  }

  /** The chunks a group stands for. */
  function Render(g: Group, sections: seq<string>, maxLength: nat): seq<string>
    requires maxLength > 0
  {
    if !(Lo(g) < Hi(g) <= |sections|) then []
    else match g
      case Joined(lead, lo, hi) => [RunChunk(lead, sections[lo..hi])]
      case Forced(k) => Slices(sections[k], maxLength)
  }

  function RenderAll(gs: seq<Group>, sections: seq<string>, maxLength: nat): seq<string>
    requires maxLength > 0
    decreases |gs|
  {
    if gs == [] then []
    else RenderAll(gs[..|gs| - 1], sections, maxLength) + Render(gs[|gs| - 1], sections, maxLength)
  }

  /** Only a section longer than `maxLength` is ever split. */
  predicate SplitOnlyOversized(gs: seq<Group>, sections: seq<string>, maxLength: nat) {
    forall i :: 0 <= i < |gs| && gs[i].Forced? ==> gs[i].at < |sections| && |sections[gs[i].at]| > maxLength
  }

  /** The groups the loop has closed, and the stretch still in the buffer. */
  datatype Plan = Closed(groups: seq<Group>) | Open(groups: seq<Group>, lead: bool, lo: nat)

  /** How the loop's state after `n` of the sections is made of groups. */
  predicate Describes(p: Plan, acc: Acc, sections: seq<string>, n: nat, maxLength: nat)
    requires maxLength > 0 && n <= |sections|
  {
    && acc.emitted == RenderAll(p.groups, sections, maxLength)
    && SplitOnlyOversized(p.groups, sections, maxLength)
    && (p.Closed? ==> Tiles(p.groups, n) && acc.current == "")
    && (p.Open? ==> p.lo < n && Tiles(p.groups, p.lo) && acc.current == RunChunk(p.lead, sections[p.lo..n]))
  }

  /** The plan after section `n`, following the branch `Step` takes. */
  function PlanStep(p: Plan, acc: Acc, x: string, n: nat, maxLength: nat): Plan {
    if |acc.current| + |x| > maxLength then
      if acc.current != "" && p.Open? then Open(p.groups + [Joined(p.lead, p.lo, n)], false, n)
      else Closed(p.groups + [Forced(n)])
    else if p.Open? then p
    else Open(p.groups, true, n)
  }

  function PlanOf(sections: seq<string>, n: nat, maxLength: nat): Plan
    requires maxLength > 0 && n <= |sections|
    decreases n
  {
    if n == 0 then Closed([])
    else PlanStep(PlanOf(sections, n - 1, maxLength), Run(Start, sections[..n - 1], maxLength),
                  sections[n - 1], n - 1, maxLength)
  }

  lemma RenderAllSnoc(gs: seq<Group>, g: Group, sections: seq<string>, maxLength: nat)
    requires maxLength > 0
    ensures RenderAll(gs + [g], sections, maxLength) == RenderAll(gs, sections, maxLength) + Render(g, sections, maxLength)
    ensures Tiles(gs + [g], Hi(g)) <==> Lo(g) < Hi(g) && Tiles(gs, Lo(g))
  {
    assert (gs + [g])[..|gs|] == gs;
  }

  lemma RunChunkNonEmpty(lead: bool, xs: seq<string>)
    requires xs != [] && xs[0] != ""
    ensures RunChunk(lead, xs) != ""
  {
    assert |Join("\n", xs)| >= |xs[0]|;
  }

  lemma OneSection(sections: seq<string>, n: nat)
    requires n < |sections|
    ensures sections[n..n + 1] == [sections[n]]
    ensures Join("\n", sections[n..n + 1]) == sections[n]
  {
  }

  /** A full buffer is closed as a group and the section opens a new stretch. */
  lemma PushStep(p: Plan, acc: Acc, sections: seq<string>, n: nat, maxLength: nat)
    requires maxLength > 0 && n < |sections|
    requires Describes(p, acc, sections, n, maxLength) && p.Open?
    requires |acc.current| + |sections[n]| > maxLength
    ensures Describes(Open(p.groups + [Joined(p.lead, p.lo, n)], false, n),
                      Acc(acc.emitted + [acc.current], sections[n]), sections, n + 1, maxLength)
  {
    var g := Joined(p.lead, p.lo, n);
    RenderAllSnoc(p.groups, g, sections, maxLength);
    OneSection(sections, n);
    assert SplitOnlyOversized(p.groups + [g], sections, maxLength);
  }

  /** An oversized section on an empty buffer is a group of its own. */
  lemma ForceStep(p: Plan, acc: Acc, sections: seq<string>, n: nat, maxLength: nat)
    requires maxLength > 0 && n < |sections|
    requires Describes(p, acc, sections, n, maxLength) && p.Closed?
    requires |sections[n]| > maxLength
    ensures Describes(Closed(p.groups + [Forced(n)]),
                      Acc(acc.emitted + Slices(sections[n], maxLength), ""), sections, n + 1, maxLength)
  {
    RenderAllSnoc(p.groups, Forced(n), sections, maxLength);
    assert SplitOnlyOversized(p.groups + [Forced(n)], sections, maxLength);
  }

  lemma ExtendText(lead: bool, xs: seq<string>, x: string)
    requires xs != []
    ensures RunChunk(lead, xs) + "\n" + x == RunChunk(lead, xs + [x])
  {
    JoinSnoc("\n", xs, x);
  }

  /** A fitting section extends the stretch in the buffer. */
  lemma ExtendStep(p: Plan, acc: Acc, sections: seq<string>, n: nat, maxLength: nat)
    requires maxLength > 0 && n < |sections|
    requires Describes(p, acc, sections, n, maxLength) && p.Open?
    ensures Describes(p, Acc(acc.emitted, acc.current + "\n" + sections[n]), sections, n + 1, maxLength)
  {
    var xs := sections[p.lo..n];
    assert sections[p.lo..n + 1] == xs + [sections[n]];
    ExtendText(p.lead, xs, sections[n]);
  }

  /** A fitting section on an empty buffer opens a stretch after a `"\n"`. */
  lemma OpenStep(p: Plan, acc: Acc, sections: seq<string>, n: nat, maxLength: nat)
    requires maxLength > 0 && n < |sections|
    requires Describes(p, acc, sections, n, maxLength) && p.Closed?
    ensures Describes(Open(p.groups, true, n), Acc(acc.emitted, acc.current + "\n" + sections[n]),
                      sections, n + 1, maxLength)
  {
    OneSection(sections, n);
  }

  lemma PlanStepDescribes(p: Plan, acc: Acc, sections: seq<string>, n: nat, maxLength: nat)
    requires maxLength > 0 && n < |sections|
    requires forall i :: 0 <= i < |sections| ==> sections[i] != ""
    requires Describes(p, acc, sections, n, maxLength)
    ensures Describes(PlanStep(p, acc, sections[n], n, maxLength), Step(acc, sections[n], maxLength),
                      sections, n + 1, maxLength)
  {
    if p.Open? {
      RunChunkNonEmpty(p.lead, sections[p.lo..n]);
    }
    var x := sections[n];
    if |acc.current| + |x| > maxLength {
      if acc.current != "" {
        PushStep(p, acc, sections, n, maxLength);
      } else {
        ForceStep(p, acc, sections, n, maxLength);
      }
    } else if p.Open? {
      ExtendStep(p, acc, sections, n, maxLength);
    } else {
      OpenStep(p, acc, sections, n, maxLength);
    }
  }

  /** The loop state after `n` sections, described by `PlanOf`. */
  lemma {:induction false} PlanState(sections: seq<string>, n: nat, maxLength: nat)
    requires maxLength > 0 && n <= |sections|
    requires forall i :: 0 <= i < |sections| ==> sections[i] != ""
    ensures Describes(PlanOf(sections, n, maxLength), Run(Start, sections[..n], maxLength), sections, n, maxLength)
    decreases n
  {
    if n == 0 {
      assert sections[..0] == [];
    } else {
      PlanState(sections, n - 1, maxLength);
      var p := PlanOf(sections, n - 1, maxLength);
      var acc := Run(Start, sections[..n - 1], maxLength);
      assert sections[..n][..n - 1] == sections[..n - 1];
      assert Run(Start, sections[..n], maxLength) == Step(acc, sections[n - 1], maxLength);
      PlanStepDescribes(p, acc, sections, n - 1, maxLength);
    }
  }

  /**
   * The chunks are the sections in order, cut only between sections or
   * inside a force-split section: there are groups that tile the sections,
   * each a stretch of whole sections joined into one chunk or one oversized
   * section split into its slices, and the chunks are the groups' chunks in
   * order.
   */
  lemma CombinedGroups(sections: seq<string>, maxLength: nat)
    requires maxLength > 0
    requires forall i :: 0 <= i < |sections| ==> sections[i] != ""
    ensures exists gs :: Tiles(gs, |sections|) && SplitOnlyOversized(gs, sections, maxLength)
                         && Combined(sections, maxLength) == RenderAll(gs, sections, maxLength)
  {
    var n := |sections|;
    PlanState(sections, n, maxLength);
    assert sections[..n] == sections;
    var p := PlanOf(sections, n, maxLength);
    var acc := Run(Start, sections, maxLength);
    if p.Open? {
      var g := Joined(p.lead, p.lo, n);
      RenderAllSnoc(p.groups, g, sections, maxLength);
      RunChunkNonEmpty(p.lead, sections[p.lo..n]);
      assert SplitOnlyOversized(p.groups + [g], sections, maxLength);
      assert Combined(sections, maxLength) == acc.emitted + [acc.current];
    } else {
      assert Combined(sections, maxLength) == acc.emitted;
    }
  }

  /**
   * For a document with headings, the chunks `split_markdown_into_sections`
   * returns tile its formatted sections in order.
   */
  lemma SplitMarkdownGroups(markdown: string, maxLength: nat)
    requires maxLength > 0 && FindHeadings(markdown) != []
    ensures exists gs :: Tiles(gs, |Sections(markdown)|) && SplitOnlyOversized(gs, Sections(markdown), maxLength)
                         && SplitMarkdown(markdown, maxLength) == RenderAll(gs, Sections(markdown), maxLength)
  {
    var sections := Sections(markdown);
    SectionShape(markdown);
    forall i | 0 <= i < |sections| ensures sections[i] != "" {
      assert sections[i][0] == '#';
    }
    CombinedGroups(sections, maxLength);
  }
}
