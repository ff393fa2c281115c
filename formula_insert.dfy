/**
  What both editors do when a formula is saved: clean the LaTeX typed into
  the math editor, find where the formula being edited sits in the Quill
  document, and replace it there or insert a new one at the cursor.
 */
module FormulaInsert {
  import opened JsText
  import opened Wrappers
  import MathsPreview

  // ---------------------------------------------------------------------
  // LaTeX cleaning

  /** Trim, then strip one `$$ … $$` layer and trim again. */
  function CleanLatex(latex: string): (r: string)
    ensures IsTrimmed(r)
    ensures var t := Trim(latex);
      |t| >= 4 && StartsWith(t, "$$") && EndsWith(t, "$$") ==> r == Trim(t[2..|t| - 2])
    ensures var t := Trim(latex);
      |t| < 4 && StartsWith(t, "$$") && EndsWith(t, "$$") ==> r == []
    ensures var t := Trim(latex);
      !(StartsWith(t, "$$") && EndsWith(t, "$$")) ==> r == t
  {
    var t := Trim(latex);
    if StartsWith(t, "$$") && EndsWith(t, "$$") then Trim(Slice(t, 2, -2)) else t
  }

  /** `/\\(sum|int|prod|lim)/.test(latex)`: one of the four commands occurs anywhere. */
  predicate NeedsDisplayStyle(latex: string) {
    Contains(latex, "\\sum") || Contains(latex, "\\int") || Contains(latex, "\\prod") || Contains(latex, "\\lim")
  }

  const DisplayStylePrefix: string := "\\displaystyle "

  /** The LaTeX that goes into the formula embed. */
  function FinalLatex(latex: string): (r: string)
    ensures NeedsDisplayStyle(CleanLatex(latex)) ==> r == DisplayStylePrefix + CleanLatex(latex)
    ensures !NeedsDisplayStyle(CleanLatex(latex)) ==> r == CleanLatex(latex)
  {
    var c := CleanLatex(latex);
    if NeedsDisplayStyle(c) then DisplayStylePrefix + c else c
  }

  /** A string holding one of the four commands is not empty. */
  lemma NeedsDisplayStyleNonEmpty(latex: string)
    requires NeedsDisplayStyle(latex)
    ensures latex != []
  {
  }

  /** A prefix of a string is a prefix of any extension of it. */
  lemma StartsWithExtended(a: string, b: string, p: string)
    requires StartsWith(a, p)
    ensures StartsWith(a + b, p)
  {
    assert (a + b)[..|p|] == a[..|p|];
  }

  /** The prefix put in front of non-empty trimmed LaTeX leaves it trimmed
      and starting with the `\displaystyle` keyword. */
  lemma PrefixedShape(c: string)
    requires c != [] && !IsSpace(c[|c| - 1])
    ensures IsTrimmed(DisplayStylePrefix + c)
    ensures StartsWith(DisplayStylePrefix + c, "\\displaystyle")
  {
    assert StartsWith(DisplayStylePrefix, "\\displaystyle");
    StartsWithExtended(DisplayStylePrefix, c, "\\displaystyle");
    var f := DisplayStylePrefix + c;
    assert f[0] == '\\' && f[|f| - 1] == c[|c| - 1];
  }

  /** LaTeX with a large operator gets the prefix, has no whitespace at its
      ends, and is therefore classified as block math by the maths preview,
      which trims the value and tests for the `\displaystyle` keyword. */
  lemma LargeOperatorPreviewedAsBlock(latex: string)
    requires NeedsDisplayStyle(CleanLatex(latex))
    ensures StartsWith(FinalLatex(latex), "\\displaystyle")
    ensures Trim(FinalLatex(latex)) == FinalLatex(latex)
    ensures MathsPreview.IsBlockLatex(Trim(FinalLatex(latex)))
  {
    var c := CleanLatex(latex);
    NeedsDisplayStyleNonEmpty(c);
    PrefixedShape(c);
    TrimOfTrimmed(DisplayStylePrefix + c);
    MathsPreview.DisplayStyleIsBlock(DisplayStylePrefix + c);
  }

  /** The prefix is added even when it is already there: saving the saved
      LaTeX again doubles it. */
  lemma DisplayStyleNotIdempotent(latex: string)
    requires NeedsDisplayStyle(CleanLatex(latex))
    ensures FinalLatex(FinalLatex(latex)) == DisplayStylePrefix + FinalLatex(latex)
  {
    var c := CleanLatex(latex);
    var f := FinalLatex(latex);
    LargeOperatorPreviewedAsBlock(latex);
    assert f == DisplayStylePrefix + c;
    assert f[0] == '\\';
    assert !StartsWith(f, "$$");
    assert CleanLatex(f) == f;
    assert NeedsDisplayStyle(f) by {
      if Contains(c, "\\sum") { ContainsInSuffix(DisplayStylePrefix, c, "\\sum"); }
      else if Contains(c, "\\int") { ContainsInSuffix(DisplayStylePrefix, c, "\\int"); }
      else if Contains(c, "\\prod") { ContainsInSuffix(DisplayStylePrefix, c, "\\prod"); }
      else { ContainsInSuffix(DisplayStylePrefix, c, "\\lim"); }
    }
  }

  /** Only one `$$` layer is stripped. */
  lemma CleanStripsOneLayer()
    ensures CleanLatex("$$$$x$$$$") == "$$x$$"
  {
    var t := "$$$$x$$$$";
    TrimOfTrimmed(t);
    assert StartsWith(t, "$$") && EndsWith(t, "$$");
    assert Slice(t, 2, -2) == "$$x$$";
    TrimOfTrimmed("$$x$$");
  }

  /** Surrounding whitespace goes, inside and outside the delimiters. */
  lemma CleanTrimsInside()
    ensures CleanLatex("$$ x $$") == "x"
  {
    var t := "$$ x $$";
    TrimOfTrimmed(t);
    assert StartsWith(t, "$$") && EndsWith(t, "$$");
    assert Slice(t, 2, -2) == " x ";
    assert SkipSpaces(" x ", 0) == 1;
    assert SkipSpacesBack(" x ", 1, 3) == 2;
  }

  /** The delimiters alone clean to nothing: start and end overlap. */
  lemma CleanDelimitersOnly()
    ensures CleanLatex("$$") == ""
  {
    TrimOfTrimmed("$$");
    assert StartsWith("$$", "$$") && EndsWith("$$", "$$");
  }

  // ---------------------------------------------------------------------
  // The Quill document and its delta

  /** One position of the document: a character, a formula embed with its
      LaTeX, or any other embed (an image). */
  datatype Item = Char(c: char) | Formula(latex: string) | Embed

  /** An insert operation of `quill.getContents().ops`. */
  datatype Op = Insert(text: string) | FormulaEmbed(latex: string) | OtherEmbed

  /** `op.insert && op.insert.formula`: a formula embed with non-empty LaTeX. */
  predicate CountsAsFormula(op: Op) {
    op.FormulaEmbed? && op.latex != ""
  }

  /** `typeof op.insert === 'string' ? op.insert.length : 1` */
  function OpLength(op: Op): nat {
    match op
    case Insert(t) => |t|
    case _ => 1
  }

  function Chars(t: string): (items: seq<Item>)
    ensures |items| == |t|
    ensures forall i :: 0 <= i < |t| ==> items[i] == Char(t[i])
  {
    if t == [] then [] else [Char(t[0])] + Chars(t[1..])
  }

  function OpItems(op: Op): (items: seq<Item>)
    ensures |items| == OpLength(op)
  {
    match op
    case Insert(t) => Chars(t)
    case FormulaEmbed(l) => [Formula(l)]
    case OtherEmbed => [Embed]
  }

  /** The document a delta describes. */
  function Flatten(ops: seq<Op>): seq<Item> {
    if ops == [] then [] else OpItems(ops[0]) + Flatten(ops[1..])
  }

  /** The reference offset: the length of the document before the op
      holding the `k`-th formula that counts, or the whole length. */
  function Off(ops: seq<Op>, k: nat): nat {
    if ops == [] then 0
    else if CountsAsFormula(ops[0]) && k == 0 then 0
    else OpLength(ops[0]) + Off(ops[1..], if CountsAsFormula(ops[0]) then k - 1 else k)
  }

  /** The loop of `handleInsertFormula`: count formula embeds from -1 and
      stop at the `k`-th, adding up the lengths of the ops before it. */
  method FormulaOffset(ops: seq<Op>, k: nat) returns (indexToReplace: nat)
    ensures indexToReplace == Off(ops, k)
  {
    var formulaCount: int := -1;
    indexToReplace := 0;
    for i := 0 to |ops|
      invariant -1 <= formulaCount < k
      invariant indexToReplace + Off(ops[i..], k - (formulaCount + 1)) == Off(ops, k)
    {
      var op := ops[i];
      assert ops[i..][1..] == ops[i + 1..];
      if CountsAsFormula(op) {
        formulaCount := formulaCount + 1;
        if formulaCount == k {
          break;
        }
      }
      indexToReplace := indexToReplace + OpLength(op);
    }
  }

  /** Formula items that count: those with non-empty LaTeX. */
  predicate IsCountedFormula(item: Item) {
    item.Formula? && item.latex != ""
  }

  function FormulaCount(items: seq<Item>): nat {
    if items == [] then 0 else (if IsCountedFormula(items[0]) then 1 else 0) + FormulaCount(items[1..])
  }

  /** The position of the `k`-th counted formula of the document, or its
      length when there are no more than `k` of them. */
  function ItemPosition(items: seq<Item>, k: nat): (p: nat)
    ensures p <= |items|
  {
    if items == [] then 0
    else if IsCountedFormula(items[0]) then (if k == 0 then 0 else 1 + ItemPosition(items[1..], k - 1))
    else 1 + ItemPosition(items[1..], k)
  }

  /** The position found is the `k`-th counted formula: exactly `k` counted
      formulas come before it. Past the last one it is the end. */
  lemma {:induction false} ItemPositionFinds(items: seq<Item>, k: nat)
    ensures k < FormulaCount(items) ==>
      var p := ItemPosition(items, k);
      p < |items| && IsCountedFormula(items[p]) && FormulaCount(items[..p]) == k
    ensures k >= FormulaCount(items) ==> ItemPosition(items, k) == |items|
  {
    if items != [] {
      var rest := items[1..];
      var k' := if IsCountedFormula(items[0]) then k - 1 else k;
      if !(IsCountedFormula(items[0]) && k == 0) {
        ItemPositionFinds(rest, k');
        var p' := ItemPosition(rest, k');
        assert items[..1 + p'][1..] == rest[..p'];
        assert items[..1 + p'][0] == items[0];
      } else {
        assert items[..0] == [];
      }
    }
  }

  lemma {:induction false} CharsThenRest(t: string, rest: seq<Item>, k: nat)
    ensures ItemPosition(Chars(t) + rest, k) == |t| + ItemPosition(rest, k)
    ensures FormulaCount(Chars(t) + rest) == FormulaCount(rest)
  {
    if t == [] {
      assert Chars(t) + rest == rest;
    } else {
      CharsThenRest(t[1..], rest, k);
      var x := Chars(t) + rest;
      assert x[0] == Char(t[0]) && !IsCountedFormula(x[0]);
      assert x[1..] == Chars(t[1..]) + rest;
    }
  }

  /** The loop's offset depends only on the document, not on how its text
      is grouped into ops: it is the position of the `k`-th counted formula. */
  lemma {:induction false} OffIsItemPosition(ops: seq<Op>, k: nat)
    ensures Off(ops, k) == ItemPosition(Flatten(ops), k)
    ensures FormulaCount(Flatten(ops)) == FormulaCountOps(ops)
  {
    if ops != [] {
      var rest := Flatten(ops[1..]);
      match ops[0]
      case Insert(t) =>
        OffIsItemPosition(ops[1..], k);
        CharsThenRest(t, rest, k);
      case FormulaEmbed(l) =>
        if l != "" && k > 0 {
          OffIsItemPosition(ops[1..], k - 1);
        } else {
          OffIsItemPosition(ops[1..], k);
        }
        assert ([Formula(l)] + rest)[1..] == rest;
      case OtherEmbed =>
        OffIsItemPosition(ops[1..], k);
        assert ([Embed] + rest)[1..] == rest;
    }
  }

  function FormulaCountOps(ops: seq<Op>): nat {
    if ops == [] then 0 else (if CountsAsFormula(ops[0]) then 1 else 0) + FormulaCountOps(ops[1..])
  }

  /** With `k` below the number of counted formulas the loop stops on the
      `k`-th; otherwise it runs to the end and the offset is the length of
      the whole document. */
  lemma OffsetLocatesFormula(ops: seq<Op>, k: nat)
    ensures var items := Flatten(ops);
      k < FormulaCountOps(ops) ==>
        Off(ops, k) < |items| && IsCountedFormula(items[Off(ops, k)])
        && FormulaCount(items[..Off(ops, k)]) == k
    ensures k >= FormulaCountOps(ops) ==> Off(ops, k) == |Flatten(ops)|
  {
    OffIsItemPosition(ops, k);
    ItemPositionFinds(Flatten(ops), k);
  }

  /** `index` clamped to the document, as Quill clamps edit positions. */
  function Clamp(index: nat, n: nat): (i: nat)
    ensures i <= n && (index <= n ==> i == index)
  {
    if index <= n then index else n
  }

  /** `quill.deleteText(index, length)` on a document. */
  function Deleted(items: seq<Item>, index: nat, length: nat): (r: seq<Item>)
    ensures index >= |items| ==> r == items
    ensures index < |items| && index + length <= |items| ==> r == items[..index] + items[index + length..]
    ensures index < |items| && index + length > |items| ==> r == items[..index]
  {
    if index >= |items| then items
    else items[..index] + items[Clamp(index + length, |items|)..]
  }

  /** `quill.insertEmbed` / `quill.insertText` at `index`. */
  function Inserted(items: seq<Item>, index: nat, x: seq<Item>): (r: seq<Item>)
    ensures |r| == |items| + |x|
    ensures r == items[..Clamp(index, |items|)] + x + items[Clamp(index, |items|)..]
  {
    var i := Clamp(index, |items|);
    items[..i] + x + items[i..]
  }

  /** The Quill editor's document and cursor. */
  class QuillDocument {
    var items: seq<Item>
    var selection: nat

    constructor(items0: seq<Item>, cursor: nat)
      ensures items == items0 && selection == cursor
    {
      items := items0;
      selection := cursor;
    }

    /** `getContents().ops`: one possible grouping, one op per item. */
    function Contents(): (ops: seq<Op>)
      reads this
      ensures Flatten(ops) == items
    {
      OpsOf(items)
    }

    method DeleteText(index: nat, length: nat)
      modifies this
      ensures items == Deleted(old(items), index, length) && selection == old(selection)
    {
      items := Deleted(items, index, length);
    }

    method InsertEmbed(index: nat, latex: string)
      modifies this
      ensures items == Inserted(old(items), index, [Formula(latex)]) && selection == old(selection)
    {
      items := Inserted(items, index, [Formula(latex)]);
    }

    method InsertText(index: nat, text: string)
      modifies this
      ensures items == Inserted(old(items), index, Chars(text)) && selection == old(selection)
    {
      items := Inserted(items, index, Chars(text));
    }

    method SetSelection(index: nat)
      modifies this
      ensures selection == index && items == old(items)
    {
      selection := index;
    }

    /** The edit path: delete one item at the offset, insert the formula
        there, a space after it, and put the cursor after the space. */
    method ReplaceAt(index: nat, latex: string)
      modifies this
      ensures items == Replaced(old(items), index, latex)
      ensures selection == index + 2
    {
      ReplaceSteps(items, index, latex);
      DeleteText(index, 1);
      InsertEmbed(index, latex);
      InsertText(index + 1, " ");
      SetSelection(index + 2);
    }

    /** The insert path: the formula and a space at the cursor, and the
        cursor after the space. */
    method InsertAtCursor(latex: string)
      requires selection <= |items|
      modifies this
      ensures items == Inserted(old(items), old(selection), [Formula(latex), Char(' ')])
      ensures selection == old(selection) + 2 <= |items|
    {
      var index := selection;
      InsertEmbed(index, latex);
      InsertText(index + 1, " ");
      SetSelection(index + 2);
    }
  }

  /** The op `getContents()` reports for one item; a formula's op is taken
      to carry its LaTeX as stored, the empty string included. */
  function OpOf(item: Item): Op {
    match item
    case Char(c) => Insert([c])
    case Formula(l) => FormulaEmbed(l)
    case Embed => OtherEmbed
  }

  function OpsOf(items: seq<Item>): (ops: seq<Op>)
    ensures Flatten(ops) == items
  {
    if items == [] then []
    else
      var ops := [OpOf(items[0])] + OpsOf(items[1..]);
      assert ops[1..] == OpsOf(items[1..]);
      assert OpItems(ops[0]) == [items[0]];
      ops
  }

  /** The document after the edit path at offset `p`: the item there is
      replaced by the formula and a space; past the end, both are appended. */
  function Replaced(items: seq<Item>, p: nat, latex: string): (r: seq<Item>)
    ensures p < |items| ==>
      && |r| == |items| + 1 && r[..p] == items[..p]
      && r[p] == Formula(latex) && r[p + 1] == Char(' ') && r[p + 2..] == items[p + 1..]
    ensures p >= |items| ==> r == items + [Formula(latex), Char(' ')]
  {
    if p < |items| then items[..p] + [Formula(latex), Char(' ')] + items[p + 1..]
    else items + [Formula(latex), Char(' ')]
  }

  /** Deleting one item, inserting the formula there and a space after it
      gives the edited document. */
  lemma ReplaceSteps(items: seq<Item>, index: nat, latex: string)
    ensures Inserted(Inserted(Deleted(items, index, 1), index, [Formula(latex)]), index + 1, Chars(" "))
      == Replaced(items, index, latex)
  {
    assert Chars(" ") == [Char(' ')];
    var d := Deleted(items, index, 1);
    if index < |items| {
      assert d == items[..index] + items[index + 1..];
      var e := Inserted(d, index, [Formula(latex)]);
      assert e == items[..index] + [Formula(latex)] + items[index + 1..];
      assert e[..index + 1] == items[..index] + [Formula(latex)];
      assert e[index + 1..] == items[index + 1..];
    } else {
      var e := Inserted(d, index, [Formula(latex)]);
      assert e == items + [Formula(latex)];
      assert e[..|e|] == e && e[|e|..] == [];
    }
  }

  lemma {:induction false} FormulaCountConcat(a: seq<Item>, b: seq<Item>)
    ensures FormulaCount(a + b) == FormulaCount(a) + FormulaCount(b)
  {
    if a == [] {
      assert a + b == b;
    } else {
      FormulaCountConcat(a[1..], b);
      assert (a + b)[1..] == a[1..] + b;
    }
  }

  /** After a prefix holding exactly `k` counted formulas, the `k`-th one is
      the first counted formula of the rest. */
  lemma {:induction false} PositionAfter(a: seq<Item>, b: seq<Item>, k: nat)
    requires FormulaCount(a) == k
    ensures ItemPosition(a + b, k) == |a| + ItemPosition(b, 0)
  {
    if a == [] {
      assert a + b == b;
    } else {
      assert (a + b)[0] == a[0];
      assert (a + b)[1..] == a[1..] + b;
      PositionAfter(a[1..], b, if IsCountedFormula(a[0]) then k - 1 else k);
    }
  }

  lemma CountCons(x: Item, b: seq<Item>)
    ensures FormulaCount([x] + b) == (if IsCountedFormula(x) then 1 else 0) + FormulaCount(b)
  {
    assert ([x] + b)[1..] == b;
  }

  /** The document before and after the edit at an interior offset, cut
      around the replaced item. */
  lemma ReplacedParts(items: seq<Item>, p: nat, latex: string)
    requires p < |items|
    ensures items == items[..p] + ([items[p]] + items[p + 1..])
    ensures Replaced(items, p, latex) == items[..p] + ([Formula(latex)] + ([Char(' ')] + items[p + 1..]))
  {
  }

  /** The counted formulas after an edit at an interior offset: the old item
      is gone, the new formula counts when its LaTeX is not empty. */
  lemma ReplacedCount(items: seq<Item>, p: nat, latex: string)
    requires p < |items|
    ensures FormulaCount(Replaced(items, p, latex)) + (if IsCountedFormula(items[p]) then 1 else 0)
      == FormulaCount(items) + (if latex != "" then 1 else 0)
  {
    var a, b := items[..p], items[p + 1..];
    ReplacedParts(items, p, latex);
    FormulaCountConcat(a, [items[p]] + b);
    CountCons(items[p], b);
    FormulaCountConcat(a, [Formula(latex)] + ([Char(' ')] + b));
    CountCons(Formula(latex), [Char(' ')] + b);
    CountCons(Char(' '), b);
  }

  /** Editing the `k`-th counted formula with non-empty LaTeX puts the new
      formula where the old one was, as the `k`-th counted formula again,
      so editing it once more finds the same place. */
  lemma EditKeepsPosition(items: seq<Item>, k: nat, latex: string)
    requires k < FormulaCount(items) && latex != ""
    ensures var p := ItemPosition(items, k); var r := Replaced(items, p, latex);
      ItemPosition(r, k) == p && FormulaCount(r) == FormulaCount(items)
  {
    ItemPositionFinds(items, k);
    var p := ItemPosition(items, k);
    var rest := [Formula(latex)] + ([Char(' ')] + items[p + 1..]);
    ReplacedParts(items, p, latex);
    ReplacedCount(items, p, latex);
    assert rest[0] == Formula(latex);
    PositionAfter(items[..p], rest, k);
  }

  /** Saving empty LaTeX over the `k`-th counted formula leaves one counted
      formula fewer. */
  lemma EditEmptyDropsFormula(items: seq<Item>, k: nat)
    requires k < FormulaCount(items)
    ensures FormulaCount(Replaced(items, ItemPosition(items, k), "")) == FormulaCount(items) - 1
  {
    ItemPositionFinds(items, k);
    ReplacedCount(items, ItemPosition(items, k), "");
  }

  /** The fixed formula of the custom toolbar button. */
  const CustomLatex: string := DisplayStylePrefix + "\\sum_{i=1}^{n} i^2 = \\frac{n(n+1)(2n+1)}{6}"

  /** The custom formula is previewed as block math. */
  lemma CustomFormulaIsBlock()
    ensures MathsPreview.IsBlockLatex(Trim(CustomLatex))
  {
    var c := "\\sum_{i=1}^{n} i^2 = \\frac{n(n+1)(2n+1)}{6}";
    assert c[|c| - 1] == '}';
    PrefixedShape(c);
    TrimOfTrimmed(CustomLatex);
    MathsPreview.DisplayStyleIsBlock(CustomLatex);
  }

  /** `handleInsertFormula` on the document: with an editing index, replace
      the formula the loop finds; without one, insert at the cursor. */
  method SaveFormula(quill: QuillDocument, editing: Option<nat>, latex: string)
    requires quill.selection <= |quill.items|
    modifies quill
    ensures editing.Some? ==>
      var p := ItemPosition(old(quill.items), editing.value);
      quill.items == Replaced(old(quill.items), p, FinalLatex(latex)) && quill.selection == p + 2
    ensures editing.None? ==>
      quill.items == Inserted(old(quill.items), old(quill.selection), [Formula(FinalLatex(latex)), Char(' ')])
      && quill.selection == old(quill.selection) + 2
    ensures quill.selection <= |quill.items|
  {
    var finalLatex := FinalLatex(latex);
    if editing.Some? {
      var ops := quill.Contents();
      var indexToReplace := FormulaOffset(ops, editing.value);
      OffIsItemPosition(ops, editing.value);
      quill.ReplaceAt(indexToReplace, finalLatex);
    } else {
      quill.InsertAtCursor(finalLatex);
    }
  }

  /** `handleCustomFormula`: the fixed formula and a space at the cursor. */
  method InsertCustomFormula(quill: QuillDocument)
    requires quill.selection <= |quill.items|
    modifies quill
    ensures quill.items == Inserted(old(quill.items), old(quill.selection), [Formula(CustomLatex), Char(' ')])
    ensures quill.selection == old(quill.selection) + 2 <= |quill.items|
  {
    quill.InsertAtCursor(CustomLatex);
  }

  // ---------------------------------------------------------------------
  // The double-click index

  /** The position of the `k`-th formula span of the editor, empty or not:
      the index a double click records. */
  function SpanPosition(items: seq<Item>, k: nat): (p: nat)
    ensures p <= |items|
  {
    if items == [] then 0
    else if items[0].Formula? then (if k == 0 then 0 else 1 + SpanPosition(items[1..], k - 1))
    else 1 + SpanPosition(items[1..], k)
  }

  /** The number of formula spans, empty ones included. */
  function SpanCount(items: seq<Item>): nat {
    if items == [] then 0 else (if items[0].Formula? then 1 else 0) + SpanCount(items[1..])
  }

  /** The position found is the `k`-th formula span: exactly `k` spans come
      before it. Past the last one it is the end. */
  lemma {:induction false} SpanPositionFinds(items: seq<Item>, k: nat)
    ensures k < SpanCount(items) ==>
      var p := SpanPosition(items, k);
      p < |items| && items[p].Formula? && SpanCount(items[..p]) == k
    ensures k >= SpanCount(items) ==> SpanPosition(items, k) == |items|
  {
    if items != [] {
      var rest := items[1..];
      var k' := if items[0].Formula? then k - 1 else k;
      if !(items[0].Formula? && k == 0) {
        SpanPositionFinds(rest, k');
        var p' := SpanPosition(rest, k');
        assert items[..1 + p'][1..] == rest[..p'];
        assert items[..1 + p'][0] == items[0];
      } else {
        assert items[..0] == [];
      }
    }
  }

  predicate NoEmptyFormula(items: seq<Item>) {
    forall i :: 0 <= i < |items| && items[i].Formula? ==> items[i].latex != ""
  }

  /** Without empty formulas the loop's offset is the double-clicked span. */
  lemma {:induction false} OffsetIsClickedSpan(items: seq<Item>, k: nat)
    requires NoEmptyFormula(items)
    ensures ItemPosition(items, k) == SpanPosition(items, k)
  {
    if items != [] {
      assert items[0].Formula? ==> items[0].latex != "";
      assert NoEmptyFormula(items[1..]) by {
        forall i | 0 <= i < |items[1..]| && items[1..][i].Formula? ensures items[1..][i].latex != "" {
          assert items[1..][i] == items[i + 1];
        }
      }
      if !(items[0].Formula? && k == 0) {
        OffsetIsClickedSpan(items[1..], if items[0].Formula? then k - 1 else k);
      }
    }
  }

  /** Asking for a later counted formula never moves the position back, and
      moves it strictly forward while there is a `k + 1`-th one to find. */
  lemma {:induction false} ItemPositionMonotone(items: seq<Item>, k: nat)
    ensures ItemPosition(items, k) <= ItemPosition(items, k + 1)
    ensures k < FormulaCount(items) ==> ItemPosition(items, k) < ItemPosition(items, k + 1)
  {
    if items != [] {
      if IsCountedFormula(items[0]) {
        if k > 0 {
          ItemPositionMonotone(items[1..], k - 1);
        }
      } else {
        ItemPositionMonotone(items[1..], k);
      }
    }
  }

  /** The save loop's offset is never before the double-clicked span: the
      formulas it counts are some of the spans. */
  lemma {:induction false} OffsetNotBeforeClickedSpan(items: seq<Item>, k: nat)
    ensures SpanPosition(items, k) <= ItemPosition(items, k)
  {
    if items != [] {
      var rest := items[1..];
      if IsCountedFormula(items[0]) {
        if k > 0 {
          OffsetNotBeforeClickedSpan(rest, k - 1);
        }
      } else if items[0].Formula? {
        if k > 0 {
          OffsetNotBeforeClickedSpan(rest, k - 1);
          ItemPositionMonotone(rest, k - 1);
        }
      } else {
        OffsetNotBeforeClickedSpan(rest, k);
      }
    }
  }

  /** With one more formula span in front that the loop does not count, the
      loop looks for the `k + 1`-th counted formula of the rest while the
      span is the `k`-th of the rest: the offset lands past the span. */
  lemma SkippedFormulaShifts(rest: seq<Item>, k: nat)
    requires k < SpanCount(rest)
    ensures SpanPosition(rest, k) < ItemPosition(rest, k + 1)
  {
    ItemPositionMonotone(rest, k);
    OffsetNotBeforeClickedSpan(rest, k);
    if k >= FormulaCount(rest) {
      ItemPositionFinds(rest, k + 1);
      SpanPositionFinds(rest, k);
    }
  }

  /** An empty formula before the double-clicked span pushes the save loop's
      offset past that span, so the edit does not replace the formula that
      was clicked. */
  lemma {:induction false} EmptyFormulaBeforeShifts(items: seq<Item>, k: nat, i: nat)
    requires k < SpanCount(items)
    requires i < SpanPosition(items, k) && items[i] == Formula("")
    ensures SpanPosition(items, k) < ItemPosition(items, k)
  {
    var rest := items[1..];
    if i == 0 {
      assert k > 0;
      SkippedFormulaShifts(rest, k - 1);
    } else {
      assert rest[i - 1] == items[i];
      if IsCountedFormula(items[0]) {
        EmptyFormulaBeforeShifts(rest, k - 1, i - 1);
      } else if items[0].Formula? {
        EmptyFormulaBeforeShifts(rest, k - 1, i - 1);
        ItemPositionMonotone(rest, k - 1);
      } else {
        EmptyFormulaBeforeShifts(rest, k, i - 1);
      }
    }
  }

  /** An empty formula has a span, so the double-click index counts it. When
      the delta carries its empty LaTeX, the loop does not count it:
      double-clicking the formula after it gives the offset of the end of
      the document, and the edit appends there. */
  lemma EmptyFormulaShiftsOffset()
    ensures var items := [Formula(""), Formula("x")];
      SpanPosition(items, 1) == 1 && ItemPosition(items, 1) == 2
      && Off([FormulaEmbed(""), FormulaEmbed("x")], 1) == 2
  {
  }
}
