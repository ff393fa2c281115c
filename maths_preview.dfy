/**
  The Markdown preview of the maths editor: four Turndown rules (underline,
  formula span, pending-upload image, ordinary image), the trimmed result,
  and the preview's split of that Markdown into block-math segments and
  text lines.
 */
module MathsPreview {
  import opened JsText
  import opened Wrappers
  import opened DollarScan
  import opened Turndown

  /** The LaTeX commands whose presence at the start marks a formula as block math. */
  const BlockMathKeywords: seq<string> :=
    ["\\frac", "\\sum", "\\int", "\\sqrt", "\\begin", "\\displaystyle"]

  /** `blockMathKeywords.some((kw) => latex.startsWith(kw))` */
  predicate IsBlockLatex(latex: string) {
    exists i :: 0 <= i < |BlockMathKeywords| && StartsWith(latex, BlockMathKeywords[i])
  }

  // ---------------------------------------------------------------------
  // The four rules

  /** Filter `['u']`: Turndown compares the lower-cased `nodeName`. */
  predicate UnderlineFilter(n: Node) {
    n.name == "U" || n.name == "u"
  }

  function UnderlineReplacement(content: string, n: Node): string {
    "_" + content + "_"
  }

  /** A `SPAN` with class `ql-formula` and a truthy `data-value`. */
  predicate FormulaFilter(n: Node) {
    n.name == "SPAN" && "ql-formula" in n.classes && AttributeTruthy(n, "data-value")
  }

  /** `node.getAttribute('data-value')?.trim() || ''` */
  function FormulaLatex(n: Node): string {
    Trim(AttributeOrEmpty(n, "data-value"))
  }

  function FormulaReplacement(content: string, n: Node): string {
    var latex := FormulaLatex(n);
    if IsBlockLatex(latex) then "\n$$\n" + latex + "\n$$\n" else "$" + latex + "$"
  }

  predicate PendingImageFilter(n: Node) {
    n.name == "IMG" && "data-upload-id" in n.attributes
  }

  /** How a template literal prints `getAttribute`'s result: `null` prints as "null". */
  function TemplateText(v: Option<string>): string {
    match v
    case Some(s) => s
    case None => "null"
  }

  function PendingImageReplacement(content: string, n: Node): string {
    "![](" + TemplateText(GetAttribute(n, "data-upload-id")) + ")"
  }

  predicate ImageWithNameFilter(n: Node) {
    n.name == "IMG" && "data-upload-id" !in n.attributes
  }

  function ImageWithNameReplacement(content: string, n: Node): string {
    "![" + AttributeOrEmpty(n, "alt") + "](" + AttributeOrEmpty(n, "src") + ")"
  }

  const UnderlineRule := Rule("underline", UnderlineFilter, UnderlineReplacement)
  const FormulaRule := Rule("formula", FormulaFilter, FormulaReplacement)
  const PendingImageRule := Rule("pendingImage", PendingImageFilter, PendingImageReplacement)
  const ImageWithNameRule := Rule("imageWithName", ImageWithNameFilter, ImageWithNameReplacement)

  /** The rule table after the four `addRule` calls, in registration order. */
  const Rules: seq<Rule> :=
    AddRule(AddRule(AddRule(AddRule([], UnderlineRule), FormulaRule), PendingImageRule), ImageWithNameRule)

  /** `htmlToMarkdown(html)` for the parsed body of `html`. */
  function HtmlToMarkdown(e: Engine, body: seq<Html>): string {
    TurndownTrimmed(Rules, e, body)
  }

  // ---------------------------------------------------------------------
  // Properties of the rules

  /** Each element is taken by the rule whose filter accepts it, and at most
      one filter accepts any element, so the rules' precedence does not matter. */
  lemma RuleChoice(n: Node)
    ensures Rules == [ImageWithNameRule, PendingImageRule, FormulaRule, UnderlineRule]
    ensures RuleIndex(Rules, n) == Some(0) <==> ImageWithNameFilter(n)
    ensures RuleIndex(Rules, n) == Some(1) <==> PendingImageFilter(n)
    ensures RuleIndex(Rules, n) == Some(2) <==> FormulaFilter(n)
    ensures RuleIndex(Rules, n) == Some(3) <==> UnderlineFilter(n)
    ensures RuleIndex(Rules, n).None? <==>
      !ImageWithNameFilter(n) && !PendingImageFilter(n) && !FormulaFilter(n) && !UnderlineFilter(n)
  {
    assert Rules == [ImageWithNameRule, PendingImageRule, FormulaRule, UnderlineRule];
    if ImageWithNameFilter(n) {
      DisjointRulesOrderFree(Rules, n, 0);
    } else if PendingImageFilter(n) {
      DisjointRulesOrderFree(Rules, n, 1);
    } else if FormulaFilter(n) {
      DisjointRulesOrderFree(Rules, n, 2);
    } else if UnderlineFilter(n) {
      DisjointRulesOrderFree(Rules, n, 3);
    } else {
      assert forall j :: 0 <= j < |Rules| ==> !Rules[j].filter(n);
    }
  }

  /** Underline: the converted content wrapped in single underscores. Here
      and below, the replacement sits between the element's flanking
      whitespace, and the content is trimmed when there is any. */
  lemma UnderlineConversion(e: Engine, n: Node, kids: seq<Html>)
    requires UnderlineFilter(n) && !e.isBlank(Element(n, kids))
    ensures var h := Element(n, kids);
      ConvertNode(Rules, e, h) == Flank(e, h, "_" + RuleContent(e, h, ConvertChildren(Rules, e, kids)) + "_")
  {
    RuleChoice(n);
  }

  /** A formula span becomes inline `$…$` or a `$$` block on its own lines,
      decided by the keyword-prefix test on the trimmed LaTeX; the span's
      children play no part. */
  lemma FormulaConversion(e: Engine, n: Node, kids: seq<Html>)
    requires FormulaFilter(n) && !e.isBlank(Element(n, kids))
    ensures var latex := Trim(n.attributes["data-value"]);
      ConvertNode(Rules, e, Element(n, kids)) == Flank(e, Element(n, kids),
        if IsBlockLatex(latex) then "\n$$\n" + latex + "\n$$\n" else "$" + latex + "$")
  {
    RuleChoice(n);
  }

  /** A whitespace-only `data-value` passes the filter but trims to nothing,
      so a span Turndown does not judge blank gives an empty inline formula
      `$$`. */
  lemma BlankFormulaConversion(e: Engine, n: Node, kids: seq<Html>)
    requires n.name == "SPAN" && "ql-formula" in n.classes && !e.isBlank(Element(n, kids))
    requires "data-value" in n.attributes && n.attributes["data-value"] != []
    requires AllSpace(n.attributes["data-value"])
    ensures FormulaFilter(n)
    ensures ConvertNode(Rules, e, Element(n, kids)) == Flank(e, Element(n, kids), "$$")
  {
    FormulaConversion(e, n, kids);
    var latex := Trim(n.attributes["data-value"]);
    assert latex == [];
    assert !IsBlockLatex(latex) by {
      forall i | 0 <= i < |BlockMathKeywords| ensures !StartsWith(latex, BlockMathKeywords[i]) {
        assert |BlockMathKeywords[i]| > 0;
      }
    }
  }

  /** A formula span that Turndown judges blank (a whitespace-only formula
      whose rendered text is whitespace, say) never reaches the formula
      rule: the blank rule takes it, whatever its `data-value`. */
  lemma BlankSpanConversion(e: Engine, n: Node, kids: seq<Html>)
    requires FormulaFilter(n) && e.isBlank(Element(n, kids))
    ensures ConvertNode(Rules, e, Element(n, kids)) == Flank(e, Element(n, kids), e.blankReplacement(n))
  {
  }

  /** A span that is not a formula span is left to Turndown's own handling. */
  lemma OtherSpanConversion(e: Engine, n: Node, kids: seq<Html>)
    requires n.name == "SPAN" && !FormulaFilter(n) && !e.isBlank(Element(n, kids))
    ensures var h := Element(n, kids);
      ConvertNode(Rules, e, h) == Flank(e, h, e.generic(RuleContent(e, h, ConvertChildren(Rules, e, kids)), n))
  {
    RuleChoice(n);
  }

  /** A pending image becomes `![](<upload id>)`, whatever its `alt` and `src`. */
  lemma PendingImageConversion(e: Engine, n: Node, kids: seq<Html>)
    requires PendingImageFilter(n) && !e.isBlank(Element(n, kids))
    ensures ConvertNode(Rules, e, Element(n, kids)) ==
      Flank(e, Element(n, kids), "![](" + n.attributes["data-upload-id"] + ")")
    ensures !ImageWithNameFilter(n)
  {
    RuleChoice(n);
  }

  /** Any other image becomes `![alt](src)`, a missing attribute reading as "". */
  lemma ImageWithNameConversion(e: Engine, n: Node, kids: seq<Html>)
    requires ImageWithNameFilter(n) && !e.isBlank(Element(n, kids))
    ensures var alt := if "alt" in n.attributes then n.attributes["alt"] else "";
            var src := if "src" in n.attributes then n.attributes["src"] else "";
            ConvertNode(Rules, e, Element(n, kids)) == Flank(e, Element(n, kids), "![" + alt + "](" + src + ")")
    ensures !PendingImageFilter(n)
  {
    RuleChoice(n);
  }

  /** The Markdown handed to the preview has no whitespace at either end. */
  lemma MarkdownIsTrimmed(e: Engine, body: seq<Html>)
    ensures IsTrimmed(HtmlToMarkdown(e, body))
  {
  }

  /** Block classification is a prefix test only: a keyword elsewhere does
      not count, and a longer command that begins with a keyword does. */
  lemma BlockLatexExamples()
    ensures IsBlockLatex("\\integral")
    ensures !IsBlockLatex("x+\\sum")
    ensures IsBlockLatex("\\frac{1}{2}")
    ensures !IsBlockLatex("x^2")
  {
    assert StartsWith("\\integral", BlockMathKeywords[2]);
    assert StartsWith("\\frac{1}{2}", BlockMathKeywords[0]);
    forall i | 0 <= i < |BlockMathKeywords| ensures !StartsWith("x+\\sum", BlockMathKeywords[i]) {
      assert BlockMathKeywords[i][0] == '\\';
    }
    forall i | 0 <= i < |BlockMathKeywords| ensures !StartsWith("x^2", BlockMathKeywords[i]) {
      assert BlockMathKeywords[i][0] == '\\';
    }
  }

  /** Only LaTeX that starts with a backslash can be block math. */
  lemma BlockLatexStartsWithBackslash(latex: string)
    requires IsBlockLatex(latex)
    ensures latex != [] && latex[0] == '\\'
  {
    var i :| 0 <= i < |BlockMathKeywords| && StartsWith(latex, BlockMathKeywords[i]);
    assert latex[0] == latex[..|BlockMathKeywords[i]|][0] == BlockMathKeywords[i][0];
  }

  /** LaTeX that starts with `\displaystyle` is always block math. */
  lemma DisplayStyleIsBlock(latex: string)
    requires StartsWith(latex, "\\displaystyle")
    ensures IsBlockLatex(latex)
  {
    assert StartsWith(latex, BlockMathKeywords[5]);
  }

  // ---------------------------------------------------------------------
  // Segmentation: `markdown.split(/(\$\$[\s\S]*?\$\$)/g)`

  function Concat(parts: seq<string>): string {
    if parts == [] then "" else parts[0] + Concat(parts[1..])
  }

  /** `split` with a capturing group, from position `p`: the text before the
      leftmost match, the match itself, then the split of the rest. */
  function SplitFrom(s: string, p: nat): (r: seq<string>)
    requires p <= |s|
    decreases |s| - p
    ensures |r| % 2 == 1
  {
    match FirstMatch(s, p, 0)
    case None => [s[p..]]
    case Some(m) => [s[p..m.start], s[m.start..m.end]] + SplitFrom(s, m.end)
  }

  lemma ConcatPair(a: string, b: string, rest: seq<string>)
    ensures Concat([a, b] + rest) == a + b + Concat(rest)
  {
    assert ([a, b] + rest)[1..] == [b] + rest;
    assert ([b] + rest)[1..] == rest;
  }

  /** The segments concatenate back to the Markdown they came from. */
  lemma {:induction false} SplitConcat(s: string, p: nat)
    requires p <= |s|
    ensures Concat(SplitFrom(s, p)) == s[p..]
    decreases |s| - p
  {
    match FirstMatch(s, p, 0)
    case None =>
      assert SplitFrom(s, p) == [s[p..]];
    case Some(m) =>
      SplitConcat(s, m.end);
      ConcatPair(s[p..m.start], s[m.start..m.end], SplitFrom(s, m.end));
      assert s[p..] == s[p..m.start] + s[m.start..m.end] + s[m.end..];
  }

  function Segments(markdown: string): seq<string> {
    SplitFrom(markdown, 0)
  }

  /** `segment.match(/^\$\$[\s\S]*\$\$$/)`: opens and closes with distinct `$$`. */
  predicate IsBlockShape(seg: string) {
    |seg| >= 4 && StartsWith(seg, "$$") && EndsWith(seg, "$$")
  }

  /** Within the infix `s[p..q]`, `$$` sits at `j` exactly when it sits at
      `p + j` in `s`. */
  lemma DollarsInInfixIff(s: string, p: nat, q: nat, j: nat)
    requires p <= q <= |s| && j + 2 <= q - p
    ensures DollarsAt(s[p..q], j) <==> DollarsAt(s, p + j)
  {
    assert s[p..q][j] == s[p + j] && s[p..q][j + 1] == s[p + j + 1];
    assert s[p..q][j..j + 2] == [s[p + j], s[p + j + 1]];
    assert s[p + j..p + j + 2] == [s[p + j], s[p + j + 1]];
  }

  /** A stretch of text in which no match starts is never shown as block math. */
  lemma TextNotBlock(s: string, p: nat, q: nat)
    requires p <= q <= |s|
    requires forall j :: p <= j < q ==> MatchEnd(s, j, 0).None?
    ensures !IsBlockShape(s[p..q])
  {
    var t := s[p..q];
    if |t| >= 4 {
      DollarsInInfixIff(s, p, q, 0);
      DollarsInInfixIff(s, p, q, |t| - 2);
      assert MatchEnd(s, p, 0).None?;
      assert DollarsAt(t, 0) <==> StartsWith(t, "$$");
      assert DollarsAt(t, |t| - 2) <==> EndsWith(t, "$$");
      if DollarsAt(s, p) {
        assert !DollarsAt(s, q - 2);
      }
    }
  }

  /** A match is shown as block math and closes at its first `$$`. */
  lemma MatchIsBlock(s: string, q: nat, e: nat)
    requires MatchEnd(s, q, 0) == Some(e)
    ensures IsBlockShape(s[q..e])
    ensures ClosesAtFirstDollars(s[q..e])
  {
    var mt := s[q..e];
    DollarsInInfixIff(s, q, e, 0);
    DollarsInInfixIff(s, q, e, |mt| - 2);
    assert DollarsAt(mt, 0) <==> StartsWith(mt, "$$");
    assert DollarsAt(mt, |mt| - 2) <==> EndsWith(mt, "$$");
    forall j | 2 <= j < |mt| - 2 ensures !DollarsAt(mt, j) {
      DollarsInInfixIff(s, q, e, j);
    }
  }

  /** Exactly the odd-indexed entries are shown as block math. */
  predicate BlockExactlyAtOdd(r: seq<string>) {
    forall i :: 0 <= i < |r| ==> (IsBlockShape(r[i]) <==> i % 2 == 1)
  }

  lemma BlockExactlyAtOddCons(a: string, b: string, rest: seq<string>)
    requires !IsBlockShape(a) && IsBlockShape(b) && BlockExactlyAtOdd(rest)
    ensures BlockExactlyAtOdd([a, b] + rest)
  {
    var r := [a, b] + rest;
    forall i | 2 <= i < |r| ensures IsBlockShape(r[i]) <==> i % 2 == 1 {
      assert r[i] == rest[i - 2];
      assert (i - 2) % 2 == i % 2;
    }
  }

  /** Exactly the odd-indexed segments, which are the matches, are shown as
      block math. */
  lemma {:induction false} SegmentBlockIffOdd(s: string, p: nat)
    requires p <= |s|
    ensures BlockExactlyAtOdd(SplitFrom(s, p))
    decreases |s| - p
  {
    match FirstMatch(s, p, 0)
    case None =>
      TextNotBlock(s, p, |s|);
    case Some(m) =>
      TextNotBlock(s, p, m.start);
      MatchIsBlock(s, m.start, m.end);
      SegmentBlockIffOdd(s, m.end);
      BlockExactlyAtOddCons(s[p..m.start], s[m.start..m.end], SplitFrom(s, m.end));
  }

  /** No `$$` between the opening and the closing `$$`: the match is lazy. */
  predicate ClosesAtFirstDollars(seg: string) {
    forall j :: 2 <= j < |seg| - 2 ==> !DollarsAt(seg, j)
  }

  /** Each odd-indexed segment is a lazy match: it closes at the first `$$`
      after its opening one. */
  lemma {:induction false} MatchSegmentsShortest(s: string, p: nat)
    requires p <= |s|
    ensures var r := SplitFrom(s, p);
      forall i :: 0 <= i < |r| && i % 2 == 1 ==> ClosesAtFirstDollars(r[i])
    decreases |s| - p
  {
    var r := SplitFrom(s, p);
    match FirstMatch(s, p, 0)
    case None =>
      assert r == [s[p..]];
    case Some(m) =>
      MatchIsBlock(s, m.start, m.end);
      MatchSegmentsShortest(s, m.end);
      assert forall k :: 0 <= k < |SplitFrom(s, m.end)| && k % 2 == 1 ==> ClosesAtFirstDollars(SplitFrom(s, m.end)[k]);
      var rest := SplitFrom(s, m.end);
      assert r == [s[p..m.start], s[m.start..m.end]] + rest;
      assert forall k :: 0 <= k < |rest| && k % 2 == 1 ==> ClosesAtFirstDollars(rest[k]);
      forall i | 0 <= i < |r| && i % 2 == 1 ensures ClosesAtFirstDollars(r[i]) {
        if i == 1 {
          assert r[1] == s[m.start..m.end];
        } else {
          assert r[i] == rest[i - 2];
          assert (i - 2) % 2 == i % 2;
        }
      }
  }

  /** How the preview shows one segment: block math in one box, anything
      else as one line per `\n`-separated piece. */
  datatype Row = MathBlock(text: string) | TextLine(text: string)

  function LineRows(lines: seq<string>): (rows: seq<Row>)
    ensures |rows| == |lines|
    ensures forall i :: 0 <= i < |rows| ==> rows[i] == TextLine(lines[i])
  {
    if lines == [] then [] else [TextLine(lines[0])] + LineRows(lines[1..])
  }

  function SegmentRows(seg: string): seq<Row> {
    if IsBlockShape(seg) then [MathBlock(seg)] else LineRows(SplitLines(seg))
  }

  function PreviewRows(segments: seq<string>): seq<Row> {
    if segments == [] then [] else SegmentRows(segments[0]) + PreviewRows(segments[1..])
  }

  /** A non-block segment is shown as its lines: one text row per newline
      plus one, none holding a newline, and joined back they give the segment. */
  lemma TextSegmentRows(seg: string)
    requires !IsBlockShape(seg)
    ensures var rows := SegmentRows(seg);
      && |rows| == CountChar(seg, '\n') + 1
      && (forall i :: 0 <= i < |rows| ==> rows[i].TextLine? && '\n' !in rows[i].text)
      && JoinLines(seq(|rows|, i requires 0 <= i < |rows| => rows[i].text)) == seg
  {
    var lines := SplitLines(seg);
    SplitLinesJoin(seg);
    var rows := SegmentRows(seg);
    assert seq(|rows|, i requires 0 <= i < |rows| => rows[i].text) == lines;
  }

  // ---------------------------------------------------------------------
  // Formula output as the segmentation sees it

  /** The block form the formula rule emits is split back into the newline
      before it, the `$$` block itself, and the newline after it, provided the
      LaTeX holds no `$$` of its own. */
  lemma {:induction false} BlockFormulaSegments(latex: string)
    requires !Contains(latex, "$$")
    ensures Segments("\n$$\n" + latex + "\n$$\n") == ["\n", "$$\n" + latex + "\n$$", "\n"]
  {
    var s := "\n$$\n" + latex + "\n$$\n";
    var L := |latex|;
    assert |s| == L + 8;
    assert forall i :: 0 <= i < L ==> s[4 + i] == latex[i];
    assert s[0] == '\n' && s[1] == '$' && s[2] == '$' && s[3] == '\n';
    assert s[4 + L] == '\n' && s[5 + L] == '$' && s[6 + L] == '$' && s[7 + L] == '\n';
    assert DollarsAt(s, 1) by { assert s[1..3] == "$$"; }
    assert DollarsAt(s, 5 + L) by { assert s[5 + L..7 + L] == "$$"; }
    forall j | 3 <= j < 5 + L ensures !DollarsAt(s, j) {
      if 4 <= j && j + 2 <= 4 + L {
        assert s[j..j + 2] == latex[j - 4..j - 2];
        assert !OccursAt(latex, "$$", j - 4);
      }
    }
    assert NextDollars(s, 3) == Some(5 + L);
    assert MatchEnd(s, 0, 0).None?;
    assert MatchEnd(s, 1, 0) == Some(7 + L);
    assert FirstMatch(s, 1, 0) == Some(Span(1, 7 + L));
    assert FirstMatch(s, 0, 0) == Some(Span(1, 7 + L));
    assert MatchEnd(s, 7 + L, 0).None?;
    assert FirstMatch(s, 8 + L, 0).None?;
    assert FirstMatch(s, 7 + L, 0).None?;
    assert s[7 + L..] == "\n";
    assert SplitFrom(s, 7 + L) == ["\n"];
    assert s[0..1] == "\n";
    assert s[1..7 + L] == "$$\n" + latex + "\n$$";
  }

  /** The inline form of a non-empty formula without `$` is one text segment. */
  lemma InlineFormulaSegments(latex: string)
    requires latex != [] && '$' !in latex
    ensures Segments("$" + latex + "$") == ["$" + latex + "$"]
    ensures !IsBlockShape("$" + latex + "$")
  {
    var s := "$" + latex + "$";
    forall j | 0 <= j <= |s| ensures !OccursAt(s, "$$", j) {
      if j + 2 <= |s| {
        if j == 0 {
          assert s[1] == latex[0];
        } else {
          assert s[j] == latex[j - 1];
        }
      }
    }
    NoDollarsNoMatch(s, 0, 0);
    assert s[1] == latex[0];
  }
}
