/**
  The plain preview's display step: the Markdown is split on newlines and
  every line is scanned on its own with `/\$\$([\s\S]+?)\$\$/g`, giving
  text parts and `BlockMath` parts.
 */
module PlainScanner {
  import opened JsText
  import opened Wrappers
  import opened DollarScan

  /** What the scanner pushes: a text string or a `BlockMath` element. */
  datatype Part = Text(text: string) | BlockMath(math: string)

  /** The characters of the line a part stands for. */
  function PartSource(p: Part): string {
    match p
    case Text(t) => t
    case BlockMath(m) => "$$" + m + "$$"
  }

  function Source(parts: seq<Part>): string {
    if parts == [] then "" else PartSource(parts[0]) + Source(parts[1..])
  }

  /** Text parts at the even positions, math parts at the odd ones, and a
      text part at both ends: 2·k + 1 parts for k matches. */
  predicate Alternates(parts: seq<Part>) {
    && |parts| % 2 == 1
    && forall i :: 0 <= i < |parts| ==> (parts[i].Text? <==> i % 2 == 0)
  }

  predicate MathNonEmpty(parts: seq<Part>) {
    forall i :: 0 <= i < |parts| && parts[i].BlockMath? ==> parts[i].math != []
  }

  /** The parts of `line` from index `from` on: the text up to the leftmost
      match of `/\$\$([\s\S]+?)\$\$/`, the captured math, and the parts
      after the match. */
  function PartsFrom(line: string, from: nat): seq<Part>
    requires from <= |line|
    decreases |line| - from
  {
    match FirstMatch(line, from, 1)
    case None => [Text(line[from..])]
    case Some(m) =>
      [Text(line[from..m.start]), BlockMath(line[m.start + 2..m.end - 2])] + PartsFrom(line, m.end)
  }

  lemma SourceCons(a: string, b: string, rest: seq<Part>)
    ensures Source([Text(a), BlockMath(b)] + rest) == a + "$$" + b + "$$" + Source(rest)
  {
    var ps := [Text(a), BlockMath(b)] + rest;
    assert ps[1..] == [BlockMath(b)] + rest;
    assert ps[1..][1..] == rest;
  }

  lemma AlternatesCons(a: string, b: string, rest: seq<Part>)
    requires Alternates(rest) && MathNonEmpty(rest) && b != []
    ensures Alternates([Text(a), BlockMath(b)] + rest)
    ensures MathNonEmpty([Text(a), BlockMath(b)] + rest)
  {
    var ps := [Text(a), BlockMath(b)] + rest;
    forall i | 2 <= i < |ps| ensures ps[i] == rest[i - 2] {
    }
  }

  /** A match and its two `$$` delimiters put back together give the
      matched characters. */
  lemma MatchSource(line: string, from: nat, m: Span)
    requires from <= m.start && MatchEnd(line, m.start, 1) == Some(m.end)
    ensures m.start + 5 <= m.end <= |line|
    ensures line[from..m.start] + "$$" + line[m.start + 2..m.end - 2] + "$$" + line[m.end..] == line[from..]
  {
    DelimitersAt(line, m.start, m.end);
    SpanSource(line, from, m.start, m.end);
  }

  /** The text before a `$$ … $$` span, the span rebuilt from its body, and
      the text after it give the suffix back. */
  lemma SpanSource(line: string, from: nat, q: nat, e: nat)
    requires from <= q && q + 4 <= e <= |line|
    requires DollarsAt(line, q) && DollarsAt(line, e - 2)
    ensures line[from..q] + "$$" + line[q + 2..e - 2] + "$$" + line[e..] == line[from..]
  {
    DollarsSlice(line, q);
    DollarsSlice(line, e - 2);
    Rejoin(line, from, q, e);
  }

  lemma DelimitersAt(line: string, q: nat, e: nat)
    requires MatchEnd(line, q, 1) == Some(e)
    ensures q + 5 <= e <= |line|
    ensures DollarsAt(line, q) && DollarsAt(line, e - 2)
  {
  }

  lemma DollarsSlice(s: string, i: nat)
    requires DollarsAt(s, i)
    ensures s[i..i + 2] == "$$"
  {
  }

  /** Cutting a suffix at four points and gluing the pieces back. */
  lemma Rejoin(s: string, from: nat, q: nat, e: nat)
    requires from <= q && q + 4 <= e <= |s|
    ensures s[from..q] + s[q..q + 2] + s[q + 2..e - 2] + s[e - 2..e] + s[e..] == s[from..]
  {
    SplitSuffix(s, e - 2, e);
    SplitSuffix(s, q + 2, e - 2);
    SplitSuffix(s, q, q + 2);
    SplitSuffix(s, from, q);
  }

  lemma SplitSuffix(s: string, a: nat, b: nat)
    requires a <= b <= |s|
    ensures s[a..] == s[a..b] + s[b..]
  {
  }

  /** One round of the scan: a match at or after `from` contributes its
      text and its math, and the scan resumes after it. */
  lemma PartsFromStep(line: string, from: nat, m: Span)
    requires FirstMatch(line, from, 1) == Some(m)
    ensures PartsFrom(line, from) ==
      [Text(line[from..m.start]), BlockMath(line[m.start + 2..m.end - 2])] + PartsFrom(line, m.end)
  {
  }

  /** The parts rebuild the scanned suffix exactly. */
  lemma {:induction false} PartsFromSource(line: string, from: nat)
    requires from <= |line|
    ensures Source(PartsFrom(line, from)) == line[from..]
    decreases |line| - from
  {
    match FirstMatch(line, from, 1)
    case None =>
      assert Source([Text(line[from..])]) == line[from..] + Source([]);
    case Some(m) =>
      PartsFromStep(line, from, m);
      MatchSource(line, from, m);
      PartsFromSource(line, m.end);
      SourceCons(line[from..m.start], line[m.start + 2..m.end - 2], PartsFrom(line, m.end));
  }

  /** The parts alternate text and math, starting and ending with text, and
      every captured math string is non-empty. */
  lemma {:induction false} PartsFromAlternate(line: string, from: nat)
    requires from <= |line|
    ensures Alternates(PartsFrom(line, from)) && MathNonEmpty(PartsFrom(line, from))
    decreases |line| - from
  {
    match FirstMatch(line, from, 1)
    case None =>
    case Some(m) =>
      MatchSource(line, from, m);
      PartsFromStep(line, from, m);
      PartsFromAlternate(line, m.end);
      AlternatesCons(line[from..m.start], line[m.start + 2..m.end - 2], PartsFrom(line, m.end));
  }

  /** The `while ((match = regex.exec(line)) !== null)` loop: repeatedly
      take the next match after `lastIndex`, push the text before it and its
      math, and resume after it; finally push the rest of the line. */
  method ScanLine(line: string) returns (parts: seq<Part>)
    ensures parts == PartsFrom(line, 0)
    ensures Source(parts) == line
    ensures Alternates(parts) && MathNonEmpty(parts)
  {
    parts := [];
    var lastIndex: nat := 0;
    var m := FirstMatch(line, lastIndex, 1);
    while m.Some?
      invariant lastIndex <= |line|
      invariant m == FirstMatch(line, lastIndex, 1)
      invariant parts + PartsFrom(line, lastIndex) == PartsFrom(line, 0)
      decreases |line| - lastIndex
    {
      var span := m.value;
      MatchSource(line, lastIndex, span);
      PartsFromStep(line, lastIndex, span);
      var found := [Text(line[lastIndex..span.start]), BlockMath(line[span.start + 2..span.end - 2])];
      assert (parts + found) + PartsFrom(line, span.end) == parts + (found + PartsFrom(line, span.end));
      parts := parts + found;
      lastIndex := span.end;
      m := FirstMatch(line, lastIndex, 1);
    }
    parts := parts + [Text(line[lastIndex..])];
    PartsFromSource(line, 0);
    PartsFromAlternate(line, 0);
  }

  /** A character absent from the rebuilt line is absent from every part. */
  lemma {:induction false} AbsentFromParts(parts: seq<Part>, c: char)
    requires c !in Source(parts)
    ensures forall i :: 0 <= i < |parts| && parts[i].BlockMath? ==> c !in parts[i].math
    ensures forall i :: 0 <= i < |parts| && parts[i].Text? ==> c !in parts[i].text
  {
    if parts != [] {
      AbsentFromParts(parts[1..], c);
      match parts[0]
      case Text(t) =>
      case BlockMath(b) =>
        assert forall k :: 0 <= k < |b| ==> b[k] == ("$$" + b + "$$")[k + 2];
    }
  }

  /** No math part holds a newline. */
  predicate MathOnOneLine(parts: seq<Part>) {
    forall j :: 0 <= j < |parts| && parts[j].BlockMath? ==> '\n' !in parts[j].math
  }

  /** What the preview shows for one line: the scanner's parts, which
      rebuild the line and keep every math part within it. */
  predicate LineShown(line: string, parts: seq<Part>) {
    && parts == PartsFrom(line, 0)
    && Source(parts) == line
    && MathOnOneLine(parts)
  }

  lemma ScannedLineShown(line: string, parts: seq<Part>)
    requires '\n' !in line
    requires parts == PartsFrom(line, 0) && Source(parts) == line
    ensures LineShown(line, parts)
  {
    AbsentFromParts(parts, '\n');
  }

  /** The component: split the Markdown on newlines and scan every line on
      its own. No math part spans a newline, and the lines' parts rebuild
      the lines. */
  method PreviewLines(markdown: string) returns (rows: seq<seq<Part>>)
    ensures |rows| == |SplitLines(markdown)|
    ensures forall i :: 0 <= i < |rows| ==> LineShown(SplitLines(markdown)[i], rows[i])
  {
    var lines := SplitLines(markdown);
    rows := [];
    for i := 0 to |lines|
      invariant |rows| == i
      invariant forall k :: 0 <= k < i ==> LineShown(lines[k], rows[k])
    {
      var line := lines[i];
      var parts := ScanLine(line);
      ScannedLineShown(line, parts);
      rows := rows + [parts];
    }
  }

  /** A line without `$$` is one text part. */
  lemma PlainLine(line: string)
    requires !Contains(line, "$$")
    ensures PartsFrom(line, 0) == [Text(line)]
  {
    NoDollarsNoMatch(line, 0, 1);
  }

  /** The formula rule's output splits into a `$$` line, the lines of the
      value, and a closing `$$` line. */
  lemma FormulaOutputLines(v: string)
    ensures SplitLines("$$\n" + v + "\n$$") == ["$$"] + SplitLines(v) + ["$$"]
  {
    assert "$$\n" + v + "\n$$" == "$$" + "\n" + (v + "\n" + "$$");
    SplitLinesAround("$$", v + "\n" + "$$");
    SplitLinesAround(v, "$$");
    SplitLinesNoNewline("$$");
  }

  /** The lines the formula rule emits never yield a math part when the
      value has no `$$` of its own: the delimiters sit alone on their lines,
      and a lone `$$` is too short to match. */
  lemma FormulaOutputHasNoBlockMath(v: string)
    requires !Contains(v, "$$")
    ensures forall i :: 0 <= i < |SplitLines("$$\n" + v + "\n$$")| ==>
              var line := SplitLines("$$\n" + v + "\n$$")[i];
              PartsFrom(line, 0) == [Text(line)]
  {
    FormulaOutputLines(v);
    var lines := SplitLines("$$\n" + v + "\n$$");
    SplitLinesKeepsAbsence(v, "$$");
    forall i | 0 <= i < |lines| ensures PartsFrom(lines[i], 0) == [Text(lines[i])] {
      if 1 <= i < |lines| - 1 {
        assert lines[i] == SplitLines(v)[i - 1];
        PlainLine(lines[i]);
      } else {
        assert lines[i] == "$$";
        assert FirstMatch("$$", 0, 1).None?;
      }
    }
  }

  /** Two formulas in one paragraph with text `t` between them put the
      closing `$$` of the first, `t`, and the opening `$$` of the second on
      one line. */
  lemma AdjacentFormulasShareLine(v: string, t: string, w: string)
    requires '\n' !in t
    ensures SplitLines(("$$\n" + v + "\n$$") + t + ("$$\n" + w + "\n$$")) ==
              ["$$"] + SplitLines(v) + ["$$" + t + "$$"] + SplitLines(w) + ["$$"]
  {
    var mid := "$$" + t + "$$";
    var inner := mid + "\n" + (w + "\n" + "$$");
    var body := v + "\n" + inner;
    AdjacentFormulasRegroup(v, t, w);
    DelimitedNoNewline(t);
    SplitLinesAround("$$", body);
    SplitLinesNoNewline("$$");
    assert SplitLines("$$" + "\n" + body) == ["$$"] + SplitLines(body);
    SplitLinesAround(v, inner);
    LineThenFormulaEnd(mid, w);
    var a, b, c := SplitLines(v), SplitLines(w), [mid];
    assert ["$$"] + (a + (c + b + ["$$"])) == ["$$"] + a + c + b + ["$$"];
  }

  /** A line without newline, then the rest of a formula's output. */
  lemma LineThenFormulaEnd(line: string, w: string)
    requires '\n' !in line
    ensures SplitLines(line + "\n" + (w + "\n" + "$$")) == [line] + SplitLines(w) + ["$$"]
  {
    SplitLinesAround(line, w + "\n" + "$$");
    SplitLinesAround(w, "$$");
    SplitLinesNoNewline("$$");
    SplitLinesNoNewline(line);
  }

  lemma AdjacentFormulasRegroup(v: string, t: string, w: string)
    ensures ("$$\n" + v + "\n$$") + t + ("$$\n" + w + "\n$$") ==
              "$$" + "\n" + (v + "\n" + (("$$" + t + "$$") + "\n" + (w + "\n" + "$$")))
  {
  }

  lemma DelimitedNoNewline(t: string)
    requires '\n' !in t
    ensures '\n' !in "$$" + t + "$$"
  {
    var mid := "$$" + t + "$$";
    forall k | 0 <= k < |mid| ensures mid[k] != '\n' {
      if 2 <= k < |mid| - 2 { assert mid[k] == t[k - 2]; }
    }
  }

  /** The scanner shows the text between two such formulas as math. */
  lemma SharedLineIsMath()
    ensures PartsFrom("$$ and $$", 0) == [Text(""), BlockMath(" and "), Text("")]
  {
    var line := "$$ and $$";
    assert |line| == 9;
    assert NextDollars(line, 3) == Some(7) by {
      assert !DollarsAt(line, 3) && !DollarsAt(line, 4) && !DollarsAt(line, 5) && !DollarsAt(line, 6);
      assert DollarsAt(line, 7);
    }
    assert FirstMatch(line, 0, 1) == Some(Span(0, 9));
    assert FirstMatch(line, 9, 1).None?;
    assert line[9..] == [];
    assert PartsFrom(line, 9) == [Text(line[9..])];
    assert line[2..7] == " and ";
    assert PartsFrom(line, 0) == [Text(line[0..0]), BlockMath(line[2..7])] + PartsFrom(line, 9);
  }
}
