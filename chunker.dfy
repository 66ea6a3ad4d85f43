/**
 * `split_markdown_into_sections` (source/create_rules_utils.py:11-40): cut a
 * Markdown document into chunks along heading boundaries.
 *
 * A boundary is a match of the regular expression `(?:\n\s*)#{1,6}\s+`; the
 * document is cut there by `re.split`, and the headings are collected by
 * `re.findall` of the same expression followed by `([^\n]+)`.  Both scans are
 * written out below as matchers over positions of the document.  The headings are
 * paired with the pieces after the first (`zip`, so the shorter list wins),
 * each pair is formatted as `"# " + heading + "\n" + content`, and the
 * formatted sections are combined into chunks by the accumulate / flush /
 * force-split loop, which is the method `SplitMarkdownIntoSections`.
 */
module Chunker {
  import opened Wrappers
  import opened Text

  // ---------------------------------------------------------------------
  // The boundary matcher, on positions of the document; a greedy `\s*`
  // run from `i` ends at `SpanStart(t, i)`
  // ---------------------------------------------------------------------

  /** The end of the run of `#` starting at `i`. */
  function HashEnd(t: string, i: nat): (j: nat)
    requires i <= |t|
    ensures i <= j <= |t| && (j == |t| || t[j] != '#')
    decreases |t| - i
  {
    if i < |t| && t[i] == '#' then HashEnd(t, i + 1) else i
  }

  /** The end of the line in which position `i` lies: the next line feed, or the end. */
  function LineEnd(t: string, i: nat): (j: nat)
    requires i <= |t|
    ensures i <= j <= |t| && (j == |t| || t[j] == '\n')
    decreases |t| - i
  {
    if i < |t| && t[i] != '\n' then LineEnd(t, i + 1) else i
  }

  lemma {:induction false} HashEndHashes(t: string, i: nat)
    requires i <= |t|
    ensures forall m :: i <= m < HashEnd(t, i) ==> t[m] == '#'
    decreases |t| - i
  {
    if i < |t| && t[i] == '#' {
      HashEndHashes(t, i + 1);
    }
  }

  lemma {:induction false} LineEndNoNewline(t: string, i: nat)
    requires i <= |t|
    ensures forall m :: i <= m < LineEnd(t, i) ==> t[m] != '\n'
    decreases |t| - i
  {
    if i < |t| && t[i] != '\n' {
      LineEndNoNewline(t, i + 1);
    }
  }

  /** A whitespace run seen from inside ends where it ends. */
  lemma {:induction false} SpanStartFrom(t: string, i: nat, j: nat)
    requires i <= |t| && i <= j <= SpanStart(t, i)
    ensures SpanStart(t, j) == SpanStart(t, i)
    decreases j - i
  {
    if i < j {
      SpanStartFrom(t, i + 1, j);
    }
  }

  /** The line ends no later than the next line feed. */
  lemma {:induction false} LineEndBefore(t: string, i: nat, p: nat)
    requires i <= p <= |t| && (p == |t| || t[p] == '\n')
    ensures LineEnd(t, i) <= p
    decreases p - i
  {
    if i < p {
      LineEndBefore(t, i + 1, p);
    }
  }

  /**
   * The end of the match of `(?:\n\s*)#{1,6}\s+` starting at position `i`.
   * Both whitespace runs are maximal (nothing after `\s*` can be whitespace,
   * since `#` must follow); `#{1,6}` succeeds only when the run of `#` is at
   * most six long and is followed by whitespace.
   */
  function BoundaryEnd(t: string, i: nat): (r: Option<nat>)
    requires i <= |t|
    ensures r.Some? ==> i < |t| && t[i] == '\n' && i < r.value <= |t|
    ensures r.Some? ==> r.value == |t| || !IsSpace(t[r.value])
  {
    if i == |t| || t[i] != '\n' then None
    else
      var w := SpanStart(t, i + 1);
      var h := HashEnd(t, w);
      if 1 <= h - w <= 6 && h < |t| && IsSpace(t[h]) then Some(SpanStart(t, h)) else None
  }

  /**
   * `re.split(r'(?:\n\s*)#{1,6}\s+', t)`, scanning from `i` with the current
   * piece begun at `start`: after a boundary the next piece begins, and the
   * scan resumes, where the boundary ends.
   */
  function SplitFrom(t: string, start: nat, i: nat): (r: seq<string>)
    requires start <= i <= |t|
    ensures |r| >= 1 && i <= start + |r[0]| <= |t| && r[0] == t[start..start + |r[0]|]
    ensures start + |r[0]| == |t| || t[start + |r[0]|] == '\n'
    decreases |t| - i
  {
    if i == |t| then [t[start..]]
    else match BoundaryEnd(t, i)
      case Some(k) => [t[start..i]] + SplitFrom(t, k, k)
      case None => SplitFrom(t, start, i + 1)
  }

  /**
   * `re.findall(r'(?:\n\s*)#{1,6}\s+([^\n]+)', t)` from position `i`: the rest
   * of the line after each boundary that is followed by some text; the scan
   * resumes at the end of that line.
   */
  function FindAllFrom(t: string, i: nat): seq<string>
    requires i <= |t|
    decreases |t| - i
  {
    if i == |t| then []
    else match BoundaryEnd(t, i)
      case Some(k) =>
        if k < |t| then
          var e := LineEnd(t, k);
          [t[k..e]] + FindAllFrom(t, e)
        else FindAllFrom(t, i + 1)
      case None => FindAllFrom(t, i + 1)
  }

  /** The pieces `re.split` cuts the document into. */
  function SplitPieces(t: string): seq<string> {
    SplitFrom(t, 0, 0)
  }

  /** The headings `re.findall` collects. */
  function FindHeadings(t: string): seq<string> {
    FindAllFrom(t, 0)
  }

  /** The first line of `s`. */
  function FirstLine(s: string): string {
    s[..LineEnd(s, 0)]
  }

  /** The first lines of the non-empty pieces, in order. */
  function FirstLines(pieces: seq<string>): seq<string> {
    if pieces == [] then []
    else (if pieces[0] == "" then [] else [FirstLine(pieces[0])]) + FirstLines(pieces[1..])
  }

  // ---------------------------------------------------------------------
  // How the two scans line up
  // ---------------------------------------------------------------------

  /** No boundary starts at `j`, or the one that does runs to the end. */
  predicate Quiet(t: string, j: nat)
    requires j <= |t|
  {
    BoundaryEnd(t, j).None? || BoundaryEnd(t, j) == Some(|t|)
  }

  /** Inside a boundary that runs to the end of `t`, every boundary runs to the end too. */
  lemma {:induction false} InsideTrailingBoundary(t: string, i: nat, j: nat)
    requires i < j < |t| && BoundaryEnd(t, i) == Some(|t|)
    ensures Quiet(t, j)
  {
    var w := SpanStart(t, i + 1);
    var h := HashEnd(t, w);
    if t[j] == '\n' {
      if j < w {
        SpanStartFrom(t, i + 1, j + 1);
      } else {
        HashEndHashes(t, w);
        SpanStartSpaces(t, h);
        assert j >= h;
        SpanStartFrom(t, h, j + 1);
        assert HashEnd(t, |t|) == |t|;
      }
    }
  }

  /** No heading is found where every boundary runs to the end. */
  lemma {:induction false} NothingFoundWhenQuiet(t: string, i: nat)
    requires i <= |t|
    requires forall j :: i <= j < |t| ==> Quiet(t, j)
    ensures FindAllFrom(t, i) == []
    decreases |t| - i
  {
    if i < |t| {
      assert Quiet(t, i);
      NothingFoundWhenQuiet(t, i + 1);
    }
  }

  /** Without a line feed between `i` and `j`, no boundary starts there. */
  lemma {:induction false} SplitSkipsLine(t: string, start: nat, i: nat, j: nat)
    requires start <= i <= j <= |t|
    requires forall m :: i <= m < j ==> t[m] != '\n'
    ensures SplitFrom(t, start, i) == SplitFrom(t, start, j)
    decreases j - i
  {
    if i < j {
      SplitSkipsLine(t, start, i + 1, j);
    }
  }

  /** The first line of a piece `t[k..p]` is the line of `t` from `k`. */
  lemma {:induction false} LineEndInSlice(t: string, k: nat, p: nat, j: nat)
    requires k <= |t| && k <= j <= LineEnd(t, k) <= p <= |t|
    requires LineEnd(t, j) == LineEnd(t, k)
    ensures LineEnd(t[k..p], j - k) == LineEnd(t, k) - k
    decreases LineEnd(t, k) - j
  {
    if j < LineEnd(t, k) {
      LineEndInSlice(t, k, p, j + 1);
    }
  }

  /** After a boundary that ends at `k`, the next piece starts with the line from `k`. */
  lemma {:induction false} PieceAfterBoundary(t: string, k: nat)
    requires k < |t| && !IsSpace(t[k])
    ensures var e := LineEnd(t, k);
      FirstLines(SplitFrom(t, k, k)) == [t[k..e]] + FirstLines(SplitFrom(t, k, e)[1..])
  {
    var e := LineEnd(t, k);
    LineEndNoNewline(t, k);
    SplitSkipsLine(t, k, k, e);
    var rest := SplitFrom(t, k, k);
    var p := k + |rest[0]|;
    assert p != k;
    LineEndBefore(t, k, p);
    LineEndInSlice(t, k, p, k);
    assert FirstLine(rest[0]) == t[k..e];
  }

  /** A boundary that runs to the end of the document is followed by no heading. */
  lemma {:induction false} NothingAfterTrailingBoundary(t: string, i: nat)
    requires i < |t| && BoundaryEnd(t, i) == Some(|t|)
    ensures FindAllFrom(t, i + 1) == []
  {
    forall j | i + 1 <= j < |t|
      ensures Quiet(t, j)
    {
      InsideTrailingBoundary(t, i, j);
    }
    NothingFoundWhenQuiet(t, i + 1);
  }

  /**
   * The headings `findall` returns are the first lines of the non-empty pieces
   * `re.split` returns after the first: heading i is the start of the content
   * it is zipped with.
   */
  /** The step of `FoundAreFirstLines` at a boundary followed by a heading line. */
  lemma FoundAtHeading(t: string, start: nat, i: nat, k: nat)
    requires start <= i < |t| && BoundaryEnd(t, i) == Some(k) && k < |t|
    requires FindAllFrom(t, LineEnd(t, k)) == FirstLines(SplitFrom(t, k, LineEnd(t, k))[1..])
    ensures FindAllFrom(t, i) == FirstLines(SplitFrom(t, start, i)[1..])
  {
    var e := LineEnd(t, k);
    assert SplitFrom(t, start, i)[1..] == SplitFrom(t, k, k);
    assert FindAllFrom(t, i) == [t[k..e]] + FindAllFrom(t, e);
    PieceAfterBoundary(t, k);
  }

  /** The step of `FoundAreFirstLines` at a boundary that runs to the end. */
  lemma FoundAtEnd(t: string, start: nat, i: nat)
    requires start <= i < |t| && BoundaryEnd(t, i) == Some(|t|)
    ensures FindAllFrom(t, i) == FirstLines(SplitFrom(t, start, i)[1..])
  {
    assert SplitFrom(t, start, i)[1..] == SplitFrom(t, |t|, |t|);
    NothingAfterTrailingBoundary(t, i);
    assert SplitFrom(t, |t|, |t|) == [""];
    assert FirstLines([""]) == [] + FirstLines([]);
  }

  lemma {:induction false} FoundAreFirstLines(t: string, start: nat, i: nat)
    requires start <= i <= |t|
    ensures FindAllFrom(t, i) == FirstLines(SplitFrom(t, start, i)[1..])
    decreases |t| - i
  {
    if i < |t| {
      match BoundaryEnd(t, i)
      case None =>
        assert SplitFrom(t, start, i) == SplitFrom(t, start, i + 1);
        assert FindAllFrom(t, i) == FindAllFrom(t, i + 1);
        FoundAreFirstLines(t, start, i + 1);
      case Some(k) =>
        if k < |t| {
          FoundAreFirstLines(t, k, LineEnd(t, k));
          FoundAtHeading(t, start, i, k);
        } else {
          FoundAtEnd(t, start, i);
        }
    }
  }


  predicate ShapedPieces(r: seq<string>) {
    forall j :: 1 <= j < |r| ==> (r[j] != "" || j == |r| - 1) && (r[j] != "" ==> !IsSpace(r[j][0]))
  }

  /**
   * Every piece between two boundaries is non-empty (only the last may be
   * empty), and each piece after the first begins where a boundary ends, at a
   * character that is not whitespace.
   */
  lemma {:induction false} PiecesShape(t: string, start: nat, i: nat)
    requires start <= i <= |t|
    ensures ShapedPieces(SplitFrom(t, start, i))
    decreases |t| - i
  {
    if i < |t| {
      match BoundaryEnd(t, i)
      case None =>
        assert SplitFrom(t, start, i) == SplitFrom(t, start, i + 1);
        PiecesShape(t, start, i + 1);
      case Some(k) =>
        var rest := SplitFrom(t, k, k);
        PiecesShape(t, k, k);
        assert SplitFrom(t, start, i)[1..] == rest;
        if k < |t| {
          assert rest[0] != "" && rest[0][0] == t[k];
        }
    }
  }

  lemma {:induction false} FirstLinesAt(pieces: seq<string>)
    requires forall i :: 0 <= i < |pieces| - 1 ==> pieces[i] != ""
    ensures |FirstLines(pieces)| == |pieces| - (if pieces != [] && pieces[|pieces| - 1] == "" then 1 else 0)
    ensures forall i :: 0 <= i < |FirstLines(pieces)| ==> FirstLines(pieces)[i] == FirstLine(pieces[i])
  {
    if pieces != [] {
      FirstLinesAt(pieces[1..]);
      if |pieces| == 1 {
        assert FirstLines(pieces[1..]) == [];
      }
    }
  }

  // ---------------------------------------------------------------------
  // Sections
  // ---------------------------------------------------------------------

  /** The minimum of two lengths (`zip` stops at the shorter list). */
  function Min(a: nat, b: nat): nat {
    if a <= b then a else b
  }

  /** `[f"# {h}\n{c}" for h, c in zip(headings, contents)]`. */
  function Formatted(headings: seq<string>, contents: seq<string>): (r: seq<string>)
    ensures |r| == Min(|headings|, |contents|)
  {
    seq(Min(|headings|, |contents|), i requires 0 <= i < Min(|headings|, |contents|) =>
      "# " + headings[i] + "\n" + contents[i])
  }

  /** The formatted sections of a document: its headings zipped with the pieces after the first. */
  function Sections(markdown: string): seq<string> {
    Formatted(FindHeadings(markdown), SplitPieces(markdown)[1..])
  }

  /**
   * Every heading yields a section and no heading is lost to `zip`.  Section
   * i is `"# " + heading + "\n" + content`, whatever the heading's level, and
   * its content begins with the heading text again (the heading line is both
   * the captured heading and the start of the split piece).  The text before
   * the first boundary (piece 0) is in no section.
   */
  lemma SectionShape(markdown: string)
    ensures |Sections(markdown)| == |FindHeadings(markdown)| <= |SplitPieces(markdown)| - 1
    ensures forall i :: 0 <= i < |Sections(markdown)| ==>
      var h := FindHeadings(markdown)[i];
      var c := SplitPieces(markdown)[i + 1];
      Sections(markdown)[i] == "# " + h + "\n" + c && h != "" && |h| <= |c| && c[..|h|] == h && '\n' !in h
  {
    var pieces := SplitPieces(markdown);
    FoundAreFirstLines(markdown, 0, 0);
    PiecesShape(markdown, 0, 0);
    FirstLinesAt(pieces[1..]);
    var hs := FindHeadings(markdown);
    forall i | 0 <= i < |Sections(markdown)|
      ensures Sections(markdown)[i] == "# " + hs[i] + "\n" + pieces[i + 1]
      ensures hs[i] != "" && |hs[i]| <= |pieces[i + 1]| && pieces[i + 1][..|hs[i]|] == hs[i] && '\n' !in hs[i]
    {
      assert hs[i] == FirstLines(pieces[1..])[i] == FirstLine(pieces[1..][i]);
      assert pieces[1..][i] == pieces[i + 1];
      LineEndNoNewline(pieces[i + 1], 0);
      assert forall m :: 0 <= m < |hs[i]| ==> hs[i][m] == pieces[i + 1][m];
      assert i + 1 < |pieces| - 1 || pieces[i + 1] != "";
      assert !IsSpace(pieces[i + 1][0]);
    }
  }

  /**
   * A boundary begins with a line feed, so the whole first line lies in
   * piece 0, which no section takes up: a heading on the document's first
   * line is discarded together with the text before the first boundary.
   */
  lemma DiscardedFirstLine(markdown: string)
    ensures |FirstLine(markdown)| <= |SplitPieces(markdown)[0]|
    ensures SplitPieces(markdown)[0][..|FirstLine(markdown)|] == FirstLine(markdown)
  {
    LineEndBefore(markdown, 0, |SplitPieces(markdown)[0]|);
  }

  // ---------------------------------------------------------------------
  // Fixed-width slicing
  // ---------------------------------------------------------------------

  lemma {:induction false} MulAtLeast(k: nat, w: nat)
    requires k >= 1
    ensures k * w >= w
  {
    if k > 1 {
      MulAtLeast(k - 1, w);
      assert k * w == (k - 1) * w + w;
    }
  }

  lemma DivUnique(n: int, w: int, q: int, r: int)
    requires w > 0 && 0 <= r < w && n == q * w + r
    ensures n / w == q
  {
    var q0 := n / w;
    var r0 := n % w;
    assert n == q0 * w + r0;
    if q0 > q {
      assert (q0 - q) * w == r - r0;
      MulAtLeast(q0 - q, w);
      assert false;
    } else if q0 < q {
      assert (q - q0) * w == r0 - r;
      MulAtLeast(q - q0, w);
      assert false;
    }
  }

  lemma DivStep(a: nat, w: nat)
    requires w > 0
    ensures (a + w) / w == a / w + 1
  {
    var q := a / w;
    var r := a % w;
    assert a + w == (q + 1) * w + r;
    DivUnique(a + w, w, q + 1, r);
  }

  /**
   * `[s[i:i+width] for i in range(0, len(s), width)]`: consecutive slices
   * that concatenate back to `s`, all `width` long except possibly the last;
   * `ceil(|s| / width)` of them, none for the empty string.
   */
  function Slices(s: string, width: nat): (r: seq<string>)
    requires width > 0
    ensures Concat(r) == s
    ensures forall i :: 0 <= i < |r| ==> 0 < |r[i]| <= width
    ensures forall i :: 0 <= i < |r| - 1 ==> |r[i]| == width
    decreases |s|
  {
    if s == "" then []
    else if |s| <= width then
      assert Concat([s]) == s + Concat([]);
      [s]
    else
      var rest := Slices(s[width..], width);
      var r := [s[..width]] + rest;
      assert r[1..] == rest;
      assert s[..width] + s[width..] == s;
      r
  }

  /** `ceil(|s| / width)` slices. */
  lemma {:induction false} SlicesCount(s: string, width: nat)
    requires width > 0
    ensures |Slices(s, width)| == (|s| + width - 1) / width
    decreases |s|
  {
    if s == "" {
      DivUnique(width - 1, width, 0, width - 1);
    } else if |s| <= width {
      DivUnique(|s| + width - 1, width, 1, |s| - 1);
    } else {
      SlicesCount(s[width..], width);
      DivStep(|s| - width + width - 1, width);
    }
  }

  // ---------------------------------------------------------------------
  // Combining sections into chunks
  // ---------------------------------------------------------------------

  /** The loop state: the chunks emitted so far and the section being built. */
  datatype Acc = Acc(emitted: seq<string>, current: string)

  const Start := Acc([], "")

  /** One iteration of the loop at source/create_rules_utils.py:27-37. */
  function Step(acc: Acc, section: string, maxLength: nat): Acc
    requires maxLength > 0
  {
    if |acc.current| + |section| > maxLength then
      if acc.current != "" then Acc(acc.emitted + [acc.current], section)
      else Acc(acc.emitted + Slices(section, maxLength), "")
    else Acc(acc.emitted, acc.current + "\n" + section)
  }

  /** The loop state after the given sections. */
  function Run(acc: Acc, sections: seq<string>, maxLength: nat): Acc
    requires maxLength > 0
    decreases |sections|
  {
    if sections == [] then acc
    else Step(Run(acc, sections[..|sections| - 1], maxLength), sections[|sections| - 1], maxLength)
  }

  /** Lines 38-39: a non-empty buffer is the last chunk. */
  function Flush(acc: Acc): seq<string> {
    if acc.current != "" then acc.emitted + [acc.current] else acc.emitted
  }

  /** The chunks the loop produces from the formatted sections. */
  function Combined(sections: seq<string>, maxLength: nat): seq<string>
    requires maxLength > 0
  {
    Flush(Run(Start, sections, maxLength))
  }

  /** The whole function: fixed-width slices without headings, combined sections otherwise. */
  function SplitMarkdown(markdown: string, maxLength: nat): seq<string>
    requires maxLength > 0
  {
    if FindHeadings(markdown) == [] then Slices(markdown, maxLength)
    else Combined(Sections(markdown), maxLength)
  }

  lemma {:induction false} RunAppend(acc: Acc, a: seq<string>, b: seq<string>, maxLength: nat)
    requires maxLength > 0
    ensures Run(acc, a + b, maxLength) == Run(Run(acc, a, maxLength), b, maxLength)
    decreases |b|
  {
    if b == [] {
      assert a + b == a;
    } else {
      assert (a + b)[..|a + b| - 1] == a + b[..|b| - 1];
      RunAppend(acc, a, b[..|b| - 1], maxLength);
    }
  }

  lemma RunSnoc(acc: Acc, a: seq<string>, x: string, maxLength: nat)
    requires maxLength > 0
    ensures Run(acc, a + [x], maxLength) == Step(Run(acc, a, maxLength), x, maxLength)
  {
    assert (a + [x])[..|a|] == a;
  }

  lemma RunCons(acc: Acc, x: string, b: seq<string>, maxLength: nat)
    requires maxLength > 0
    ensures Run(acc, [x] + b, maxLength) == Run(Step(acc, x, maxLength), b, maxLength)
  {
    RunAppend(acc, [x], b, maxLength);
    assert Run(acc, [x], maxLength) == Step(Run(acc, [], maxLength), x, maxLength) by {
      assert [x][..0] == [];
    }
  }

  /** The chunks already emitted are never taken back. */
  lemma {:induction false} EmittedGrows(acc: Acc, sections: seq<string>, maxLength: nat)
    requires maxLength > 0
    ensures |acc.emitted| <= |Run(acc, sections, maxLength).emitted|
    ensures Run(acc, sections, maxLength).emitted[..|acc.emitted|] == acc.emitted
    decreases |sections|
  {
    if sections != [] {
      EmittedGrows(acc, sections[..|sections| - 1], maxLength);
    }
  }

  /** How the text of the chunks relates to the sections: each one, preceded by a joiner or not. */
  function Glue(sections: seq<string>, joined: seq<bool>): string
    requires |joined| == |sections|
  {
    if sections == [] then ""
    else Glue(sections[..|sections| - 1], joined[..|joined| - 1])
         + (if joined[|joined| - 1] then "\n" else "") + sections[|sections| - 1]
  }

  lemma StepText(acc: Acc, x: string, maxLength: nat)
    requires maxLength > 0
    ensures Concat(Step(acc, x, maxLength).emitted) + Step(acc, x, maxLength).current
      == Concat(acc.emitted) + acc.current + (if |acc.current| + |x| <= maxLength then "\n" else "") + x
  {
    if |acc.current| + |x| > maxLength {
      if acc.current != "" {
        ConcatAppend(acc.emitted, [acc.current]);
        assert Concat([acc.current]) == acc.current + Concat([]);
      } else {
        ConcatAppend(acc.emitted, Slices(x, maxLength));
      }
    }
  }

  lemma {:induction false} RunText(sections: seq<string>, maxLength: nat)
    requires maxLength > 0
    ensures exists joined: seq<bool> ::
              (|joined| == |sections| &&
               Concat(Run(Start, sections, maxLength).emitted) + Run(Start, sections, maxLength).current
                 == Glue(sections, joined))
    decreases |sections|
  {
    if sections == [] {
      assert Glue([], []) == "";
    } else {
      var init := sections[..|sections| - 1];
      var x := sections[|sections| - 1];
      RunText(init, maxLength);
      var j0 :| |j0| == |init| && Concat(Run(Start, init, maxLength).emitted) + Run(Start, init, maxLength).current
                                   == Glue(init, j0);
      var acc := Run(Start, init, maxLength);
      var appended := |acc.current| + |x| <= maxLength;
      var joined := j0 + [appended];
      assert joined[..|joined| - 1] == j0;
      StepText(acc, x, maxLength);
      assert Glue(sections, joined) == Glue(init, j0) + (if appended then "\n" else "") + x;
    }
  }

  /**
   * The chunks hold the sections in document order and nothing else: their
   * concatenation is the sections' concatenation with a `"\n"` joiner in
   * front of some of them.
   */
  lemma CombinedText(sections: seq<string>, maxLength: nat)
    requires maxLength > 0
    ensures exists joined: seq<bool> ::
              (|joined| == |sections| && Concat(Combined(sections, maxLength)) == Glue(sections, joined))
  {
    RunText(sections, maxLength);
    var acc := Run(Start, sections, maxLength);
    if acc.current != "" {
      ConcatAppend(acc.emitted, [acc.current]);
    }
  }

  /** A chunk longer than `maxLength + 1` is a single section, emitted whole. */
  predicate WithinBound(c: string, sections: seq<string>, maxLength: nat) {
    |c| <= maxLength + 1 || c in sections
  }

  lemma {:induction false} RunBound(sections: seq<string>, maxLength: nat)
    requires maxLength > 0
    ensures forall i :: 0 <= i < |Run(Start, sections, maxLength).emitted| ==>
      WithinBound(Run(Start, sections, maxLength).emitted[i], sections, maxLength)
    ensures WithinBound(Run(Start, sections, maxLength).current, sections, maxLength)
    decreases |sections|
  {
    if sections != [] {
      var init := sections[..|sections| - 1];
      var x := sections[|sections| - 1];
      RunBound(init, maxLength);
      var acc := Run(Start, init, maxLength);
      forall c | WithinBound(c, init, maxLength) ensures WithinBound(c, sections, maxLength) {
        if c in init { assert c in sections; }
      }
      assert x in sections;
    }
  }

  /**
   * Every chunk is at most `maxLength + 1` long unless it is one whole
   * section: the `"\n"` joiner is not counted by the length test, and a
   * section that arrives when the buffer is not empty is never split.
   */
  lemma CombinedBound(sections: seq<string>, maxLength: nat)
    requires maxLength > 0
    ensures forall i :: 0 <= i < |Combined(sections, maxLength)| ==>
      |Combined(sections, maxLength)[i]| <= maxLength + 1 || Combined(sections, maxLength)[i] in sections
  {
    RunBound(sections, maxLength);
    var acc := Run(Start, sections, maxLength);
    assert forall i :: 0 <= i < |Combined(sections, maxLength)| ==>
      WithinBound(Combined(sections, maxLength)[i], sections, maxLength);
  }

  /**
   * Once the buffer holds something it is never empty again, because every
   * section is non-empty.
   */
  lemma {:induction false} BufferStaysNonEmpty(acc: Acc, sections: seq<string>, maxLength: nat)
    requires maxLength > 0
    requires acc.current != ""
    requires forall i :: 0 <= i < |sections| ==> sections[i] != ""
    ensures Run(acc, sections, maxLength).current != ""
    decreases |sections|
  {
    if sections != [] {
      BufferStaysNonEmpty(acc, sections[..|sections| - 1], maxLength);
    }
  }

  /**
   * A section that does not fit while the buffer is empty is force-split:
   * its slices are emitted, each at most `maxLength` long, they concatenate to
   * the section, and the buffer stays empty.
   */
  lemma ForceSplit(acc: Acc, section: string, maxLength: nat)
    requires maxLength > 0
    requires acc.current == "" && |section| > maxLength
    ensures var next := Step(acc, section, maxLength);
      && next.current == ""
      && next.emitted[..|acc.emitted|] == acc.emitted
      && Concat(next.emitted[|acc.emitted|..]) == section
      && |next.emitted| - |acc.emitted| == (|section| + maxLength - 1) / maxLength
      && forall i :: |acc.emitted| <= i < |next.emitted| ==> |next.emitted[i]| <= maxLength
  {
    var next := Step(acc, section, maxLength);
    assert next.emitted[|acc.emitted|..] == Slices(section, maxLength);
    SlicesCount(section, maxLength);
  }

  /**
   * The docstring's promise that each chunk is within `maxLength` does not
   * hold: once the buffer is non-empty, an oversized section becomes a chunk
   * of its own, whole.
   */
  lemma {:induction false} OversizedLaterSectionIsWholeChunk(before: seq<string>, section: string, after: seq<string>, maxLength: nat)
    requires maxLength > 0
    requires Run(Start, before, maxLength).current != ""
    requires |section| > maxLength
    ensures section in Combined(before + [section] + after, maxLength)
  {
    var acc := Run(Start, before, maxLength);
    RunAppend(Start, before + [section], after, maxLength);
    RunSnoc(Start, before, section, maxLength);
    OversizedBufferIsKept(Step(acc, section, maxLength), after, maxLength);
  }

  /** An oversized buffer is emitted whole by the next section, or by the final flush. */
  lemma {:induction false} OversizedBufferIsKept(acc: Acc, after: seq<string>, maxLength: nat)
    requires maxLength > 0
    requires |acc.current| > maxLength
    ensures acc.current in Flush(Run(acc, after, maxLength))
  {
    if after != [] {
      var next := Step(acc, after[0], maxLength);
      assert next.emitted == acc.emitted + [acc.current];
      RunCons(acc, after[0], after[1..], maxLength);
      assert [after[0]] + after[1..] == after;
      EmittedGrows(next, after[1..], maxLength);
      var final := Run(next, after[1..], maxLength);
      assert final.emitted[|next.emitted| - 1] == acc.current;
    }
  }

  /**
   * When the first section fits, the buffer starts as `"\n" + section`, so the
   * first chunk begins with a line feed, and a section of exactly `maxLength`
   * characters gives a chunk of `maxLength + 1`.
   */
  lemma {:induction false} FirstChunkStartsWithNewline(sections: seq<string>, maxLength: nat)
    requires maxLength > 0
    requires sections != [] && |sections[0]| <= maxLength
    requires forall i :: 0 <= i < |sections| ==> sections[i] != ""
    ensures var acc := Run(Start, sections, maxLength);
      && acc.current != ""
      && (acc.emitted == [] ==> acc.current[0] == '\n')
      && (acc.emitted != [] ==> acc.emitted[0] != "" && acc.emitted[0][0] == '\n')
    decreases |sections|
  {
    if |sections| == 1 {
      assert sections[..0] == [];
    } else {
      FirstChunkStartsWithNewline(sections[..|sections| - 1], maxLength);
      assert sections[..|sections| - 1][0] == sections[0];
    }
  }

  lemma FirstCombinedChunk(sections: seq<string>, maxLength: nat)
    requires maxLength > 0
    requires sections != [] && |sections[0]| <= maxLength
    requires forall i :: 0 <= i < |sections| ==> sections[i] != ""
    ensures Combined(sections, maxLength) != [] && Combined(sections, maxLength)[0] != ""
    ensures Combined(sections, maxLength)[0][0] == '\n'
  {
    FirstChunkStartsWithNewline(sections, maxLength);
  }

  /** A chunk of `maxLength + 1` characters: the joiner pushes a full section over the limit. */
  lemma JoinerOverflowExample()
    ensures Combined(["# a\na"], 5) == ["\n# a\na"]
    ensures |Combined(["# a\na"], 5)[0]| == 5 + 1
  {
    assert ["# a\na"][..0] == [];
    assert Run(Start, ["# a\na"], 5) == Step(Start, "# a\na", 5);
    assert Step(Start, "# a\na", 5) == Acc([], "\n# a\na");
  }

  /** A chunk far over the limit: the second section arrives after the buffer filled. */
  lemma OversizedChunkExample()
    ensures Combined(["# a\na", "# b\nbbbbbb"], 5) == ["\n# a\na", "# b\nbbbbbb"]
  {
    var xs := ["# a\na", "# b\nbbbbbb"];
    assert xs[..1] == ["# a\na"];
    assert xs[..1][..0] == [];
    assert Run(Start, xs[..1], 5) == Acc([], "\n# a\na");
    assert Run(Start, xs, 5) == Step(Acc([], "\n# a\na"), "# b\nbbbbbb", 5);
    assert Step(Acc([], "\n# a\na"), "# b\nbbbbbb", 5) == Acc(["\n# a\na"], "# b\nbbbbbb");
  }

  // ---------------------------------------------------------------------
  // The method
  // ---------------------------------------------------------------------

  /** `split_markdown_into_sections(markdown_content, max_length)`. */
  method SplitMarkdownIntoSections(markdown: string, maxLength: nat) returns (chunks: seq<string>)
    requires maxLength > 0
    ensures chunks == SplitMarkdown(markdown, maxLength)
  {
    var pieces := SplitPieces(markdown);
    var headings := FindHeadings(markdown);
    if headings == [] {
      return Slices(markdown, maxLength);
    }
    ghost var sections := Sections(markdown);
    var n := Min(|headings|, |pieces| - 1);
    var combined: seq<string> := [];
    var current := "";
    for i := 0 to n
      invariant Acc(combined, current) == Run(Start, sections[..i], maxLength)
    {
      var section := "# " + headings[i] + "\n" + pieces[i + 1];
      assert section == sections[i];
      RunSnoc(Start, sections[..i], section, maxLength);
      assert sections[..i + 1] == sections[..i] + [section];
      if |current| + |section| > maxLength {
        if current != "" {
          combined := combined + [current];
          current := section;
        } else {
          combined := combined + Slices(section, maxLength);
        }
      } else {
        current := current + "\n" + section;
      }
    }
    assert sections[..n] == sections;
    if current != "" {
      combined := combined + [current];
    }
    chunks := combined;
  }

  /**
   * Without headings the document is cut into fixed-width slices that
   * concatenate back to it exactly.
   */
  lemma NoHeadingsFallback(markdown: string, maxLength: nat)
    requires maxLength > 0
    requires FindHeadings(markdown) == []
    ensures Concat(SplitMarkdown(markdown, maxLength)) == markdown
    ensures |SplitMarkdown(markdown, maxLength)| == (|markdown| + maxLength - 1) / maxLength
    ensures forall i :: 0 <= i < |SplitMarkdown(markdown, maxLength)| - 1 ==>
      |SplitMarkdown(markdown, maxLength)[i]| == maxLength
    ensures markdown == "" ==> SplitMarkdown(markdown, maxLength) == []
  {
    SlicesCount(markdown, maxLength);
  }
}
