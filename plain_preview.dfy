/**
  The Markdown preview of the plain editor: two Turndown rules (underline and
  an always-block formula), the trimmed result, and the line-by-line scanner
  that cuts each line into text parts and `$$ … $$` block-math parts.
 */
module PlainPreview {
  import opened JsText
  import opened Wrappers
  import opened Turndown
  import MathsPreview

  // ---------------------------------------------------------------------
  // The two rules. The underline rule and the formula filter are the same
  // as the maths preview's; only the formula replacement differs.

  /** Every formula becomes a `$$` block on lines of its own, carrying the
      `data-value` exactly as stored (no trimming, no inline case). */
  function FormulaReplacement(content: string, n: Node): string {
    "$$\n" + AttributeOrEmpty(n, "data-value") + "\n$$"
  }

  const FormulaRule := Rule("formula", MathsPreview.FormulaFilter, FormulaReplacement)

  /** The rule table after `addRule('underline')` and then `addRule('formula')`. */
  const Rules: seq<Rule> := AddRule(AddRule([], MathsPreview.UnderlineRule), FormulaRule)

  /** `htmlToMarkdown(html)` for the parsed body of `html`. */
  function HtmlToMarkdown(e: Engine, body: seq<Html>): string {
    TurndownTrimmed(Rules, e, body)
  }

  /** The formula rule takes formula spans, the underline rule takes `U`
      elements, and no element is taken by both. */
  lemma RuleChoice(n: Node)
    ensures Rules == [FormulaRule, MathsPreview.UnderlineRule]
    ensures RuleIndex(Rules, n) == Some(0) <==> MathsPreview.FormulaFilter(n)
    ensures RuleIndex(Rules, n) == Some(1) <==> MathsPreview.UnderlineFilter(n)
    ensures RuleIndex(Rules, n).None? <==> !MathsPreview.FormulaFilter(n) && !MathsPreview.UnderlineFilter(n)
  {
    assert Rules == [FormulaRule, MathsPreview.UnderlineRule];
    if MathsPreview.FormulaFilter(n) {
      DisjointRulesOrderFree(Rules, n, 0);
    } else if MathsPreview.UnderlineFilter(n) {
      DisjointRulesOrderFree(Rules, n, 1);
    } else {
      assert forall j :: 0 <= j < |Rules| ==> !Rules[j].filter(n);
    }
  }

  lemma UnderlineConversion(e: Engine, n: Node, kids: seq<Html>)
    requires MathsPreview.UnderlineFilter(n) && !e.isBlank(Element(n, kids))
    ensures var h := Element(n, kids);
      ConvertNode(Rules, e, h) == Flank(e, h, "_" + RuleContent(e, h, ConvertChildren(Rules, e, kids)) + "_")
  {
    RuleChoice(n);
  }

  /** A formula span becomes `$$`, newline, the untrimmed value, newline,
      `$$`, between its flanking whitespace. */
  lemma FormulaConversion(e: Engine, n: Node, kids: seq<Html>)
    requires MathsPreview.FormulaFilter(n) && !e.isBlank(Element(n, kids))
    ensures ConvertNode(Rules, e, Element(n, kids)) ==
      Flank(e, Element(n, kids), "$$\n" + n.attributes["data-value"] + "\n$$")
  {
    RuleChoice(n);
  }

  /** Any other span, including a formula span with an empty value, is left
      to Turndown's own handling. */
  lemma OtherSpanConversion(e: Engine, n: Node, kids: seq<Html>)
    requires n.name == "SPAN" && !MathsPreview.FormulaFilter(n) && !e.isBlank(Element(n, kids))
    ensures var h := Element(n, kids);
      ConvertNode(Rules, e, h) == Flank(e, h, e.generic(RuleContent(e, h, ConvertChildren(Rules, e, kids)), n))
  {
    RuleChoice(n);
  }

  /** The Markdown handed to the scanner has no whitespace at either end. */
  lemma MarkdownIsTrimmed(e: Engine, body: seq<Html>)
    ensures IsTrimmed(HtmlToMarkdown(e, body))
  {
  }
}
