/**
  The part of the Turndown HTML-to-Markdown engine that the converter's own
  rules plug into. A document is a tree of elements and text runs; each
  element is turned into Markdown by the first rule whose filter accepts it,
  applied to the Markdown of its children. Everything Turndown does by itself
  (its CommonMark rules, text escaping, joining of block output, the blank-node
  rule and its post-processing) is an uninterpreted `Engine`.
 */
module Turndown {
  import opened JsText
  import opened Wrappers

  /** An element as the rules see it: its `nodeName` (upper case for HTML
      elements), the tokens of its `class` attribute, and its attributes. */
  datatype Node = Node(name: string, classes: set<string>, attributes: map<string, string>)

  datatype Html = TextRun(text: string) | Element(node: Node, children: seq<Html>)

  /** `node.getAttribute(a)`; an absent attribute reads as `null`. */
  function GetAttribute(n: Node, a: string): (r: Option<string>)
    ensures r.Some? <==> a in n.attributes
    ensures r.Some? ==> r.value == n.attributes[a]
  {
    if a in n.attributes then Some(n.attributes[a]) else None
  }

  /** `node.getAttribute(a) || ''`: absent and empty both give "". */
  function AttributeOrEmpty(n: Node, a: string): (r: string)
    ensures a in n.attributes ==> r == n.attributes[a]
    ensures a !in n.attributes ==> r == ""
  {
    match GetAttribute(n, a)
    case Some(v) => v
    case None => ""
  }

  /** The truth value of `node.getAttribute(a)`: present and non-empty. */
  predicate AttributeTruthy(n: Node, a: string) {
    a in n.attributes && n.attributes[a] != ""
  }

  /** A rule as `addRule(key, { filter, replacement })` receives it. The
      `key` only names the rule; no conversion reads it. */
  datatype Rule = Rule(key: string, filter: Node -> bool, replacement: (string, Node) -> string)

  /** `addRule` puts the new rule in front of the rules added before it, so
      the rule added last is consulted first. */
  function AddRule(rules: seq<Rule>, r: Rule): seq<Rule> {
    [r] + rules
  }

  /** What Turndown does on its own: escape text, join the Markdown of
      consecutive children, decide whether an element is blank and what a
      blank element becomes, convert an element no added rule accepts (its
      CommonMark rules, `keep` and `remove`), find the whitespace flanking
      an element (the leading and trailing whitespace of its text content,
      none for a block element), and post-process the output. */
  datatype Engine = Engine(
    escape: string -> string,
    join: (string, string) -> string,
    isBlank: Html -> bool,
    blankReplacement: Node -> string,
    generic: (string, Node) -> string,
    flanking: Html -> (string, string),
    postProcess: string -> string)

  /** The element has whitespace on at least one side. */
  predicate Flanked(e: Engine, h: Html) {
    e.flanking(h).0 != [] || e.flanking(h).1 != []
  }

  /** The content a rule receives: the children's Markdown, trimmed when
      the element is flanked by whitespace. */
  function RuleContent(e: Engine, h: Html, content: string): (r: string)
    ensures Flanked(e, h) ==> r == Trim(content)
    ensures !Flanked(e, h) ==> r == content
  {
    if Flanked(e, h) then Trim(content) else content
  }

  /** The flanking whitespace put back around a rule's replacement. */
  function Flank(e: Engine, h: Html, md: string): (r: string)
    ensures !Flanked(e, h) ==> r == md
    ensures |r| == |e.flanking(h).0| + |md| + |e.flanking(h).1|
  {
    e.flanking(h).0 + md + e.flanking(h).1
  }

  /** The position of the rule that converts `n`: the first one whose filter
      accepts it. */
  function RuleIndex(rules: seq<Rule>, n: Node): (r: Option<nat>)
    ensures r.Some? ==> r.value < |rules| && rules[r.value].filter(n)
    ensures forall j :: 0 <= j < |rules| && (r.None? || j < r.value) ==> !rules[j].filter(n)
  {
    if rules == [] then None
    else if rules[0].filter(n) then Some(0)
    else
      match RuleIndex(rules[1..], n)
      case Some(i) => Some(i + 1)
      case None => None
  }

  /** When at most one rule accepts a node, the first accepting rule is the
      only accepting rule, whatever the order of the table. */
  lemma DisjointRulesOrderFree(rules: seq<Rule>, n: Node, i: nat)
    requires i < |rules| && rules[i].filter(n)
    requires forall j :: 0 <= j < |rules| && j != i ==> !rules[j].filter(n)
    ensures RuleIndex(rules, n) == Some(i)
  {
  }

  /** Markdown for one node: text runs are escaped; an element has its
      children converted first and then goes to the blank rule, the first
      added rule that accepts it, or Turndown's own handling, with its
      flanking whitespace put back on either side. */
  function ConvertNode(rules: seq<Rule>, e: Engine, h: Html): string
    decreases h
  {
    match h
    case TextRun(t) => e.escape(t)
    case Element(n, kids) =>
      var content := RuleContent(e, h, ConvertChildren(rules, e, kids));
      if e.isBlank(h) then Flank(e, h, e.blankReplacement(n))
      else
        match RuleIndex(rules, n)
        case Some(i) => Flank(e, h, rules[i].replacement(content, n))
        case None => Flank(e, h, e.generic(content, n))
  }

  /** An element that the `i`-th rule converts gives that rule's replacement
      of its trimmed content between its flanking whitespace; without
      flanking whitespace it gives the replacement alone, of the untrimmed
      content. */
  lemma RuleConversion(rules: seq<Rule>, e: Engine, n: Node, kids: seq<Html>, i: nat)
    requires !e.isBlank(Element(n, kids)) && RuleIndex(rules, n) == Some(i)
    ensures var h := Element(n, kids); var (lead, trail) := e.flanking(h);
      ConvertNode(rules, e, h) ==
        lead + rules[i].replacement(RuleContent(e, h, ConvertChildren(rules, e, kids)), n) + trail
    ensures !Flanked(e, Element(n, kids)) ==>
      ConvertNode(rules, e, Element(n, kids)) == rules[i].replacement(ConvertChildren(rules, e, kids), n)
  {
  }

  /** Markdown for a sequence of siblings, joined left to right. */
  function ConvertChildren(rules: seq<Rule>, e: Engine, kids: seq<Html>): string
    decreases kids
  {
    if kids == [] then ""
    else e.join(ConvertChildren(rules, e, kids[..|kids| - 1]), ConvertNode(rules, e, kids[|kids| - 1]))
  }

  /** `turndownService.turndown(html).trim()` for the parsed document body. */
  function TurndownTrimmed(rules: seq<Rule>, e: Engine, body: seq<Html>): (r: string)
    ensures IsTrimmed(r)
    ensures r == [] <==> AllSpace(e.postProcess(ConvertChildren(rules, e, body)))
  {
    Trim(e.postProcess(ConvertChildren(rules, e, body)))
  }
}
