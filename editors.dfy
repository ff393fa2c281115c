/**
  The two editor components: the editing state they keep beside the Quill
  document, and the handlers that change it. Saving a formula works the same
  way in both; they differ only in what the reset after saving clears.
 */
module Editors {
  import opened Wrappers
  import opened FormulaInsert
  import opened Turndown

  /** The formula a save replaces, if any: only while editing is enabled
      and an index is set. */
  function EditTarget(expressionEditable: bool, editingFormulaIndex: Option<nat>): (t: Option<nat>)
    ensures t.Some? <==> expressionEditable && editingFormulaIndex.Some?
    ensures t.Some? ==> t == editingFormulaIndex
  {
    if expressionEditable && editingFormulaIndex.Some? then editingFormulaIndex else None
  }

  /** The editor of the maths page (`src/maths/components/Editor.jsx`). */
  class MathsEditor {
    var mathEditorVisible: bool
    var expressionEditable: bool
    var editingFormulaIndex: Option<nat>
    var editingLatex: string
    const quill: QuillDocument

    /** The cursor lies within the document, as Quill keeps it. */
    predicate Valid()
      reads this, quill
    {
      quill.selection <= |quill.items|
    }

    constructor(doc: QuillDocument)
      requires doc.selection <= |doc.items|
      ensures Valid() && quill == doc
      ensures !mathEditorVisible && !expressionEditable
      ensures editingFormulaIndex == None && editingLatex == ""
    {
      quill := doc;
      mathEditorVisible := false;
      expressionEditable := false;
      editingFormulaIndex := None;
      editingLatex := "";
    }

    /** `handleInsertFormula`: save into the document, then hide the math
        editor and clear all editing state, the LaTeX included. */
    method HandleInsertFormula(latex: string)
      requires Valid()
      modifies this, quill
      ensures Valid()
      ensures old(EditTarget(expressionEditable, editingFormulaIndex)).Some? ==>
        var p := ItemPosition(old(quill.items), old(EditTarget(expressionEditable, editingFormulaIndex)).value);
        quill.items == Replaced(old(quill.items), p, FinalLatex(latex)) && quill.selection == p + 2
      ensures old(EditTarget(expressionEditable, editingFormulaIndex)).None? ==>
        quill.items == Inserted(old(quill.items), old(quill.selection), [Formula(FinalLatex(latex)), Char(' ')])
        && quill.selection == old(quill.selection) + 2
      ensures !mathEditorVisible && !expressionEditable
      ensures editingFormulaIndex == None && editingLatex == ""
    {
      SaveFormula(quill, EditTarget(expressionEditable, editingFormulaIndex), latex);
      mathEditorVisible := false;
      expressionEditable := false;
      editingFormulaIndex := None;
      editingLatex := "";
    }

    /** `handleCustomFormula`: the fixed formula at the cursor; the editing
        state is untouched. */
    method HandleCustomFormula()
      requires Valid()
      modifies quill
      ensures Valid()
      ensures quill.items == Inserted(old(quill.items), old(quill.selection), [Formula(CustomLatex), Char(' ')])
      ensures quill.selection == old(quill.selection) + 2
    {
      InsertCustomFormula(quill);
    }

    /** `toggleMathEditor`: flip the math editor and leave editing mode. */
    method ToggleMathEditor()
      modifies this
      ensures mathEditorVisible == !old(mathEditorVisible) && !expressionEditable
      ensures editingFormulaIndex == old(editingFormulaIndex) && editingLatex == old(editingLatex)
    {
      mathEditorVisible := !mathEditorVisible;
      expressionEditable := false;
    }

    /** Double-clicking the `idx`-th formula span: open the math editor in
        editing mode on that formula, prefilled with the span's
        `data-value`, or "" when it has none. */
    method BeginEdit(idx: nat, span: Node)
      modifies this
      ensures mathEditorVisible && expressionEditable
      ensures editingFormulaIndex == Some(idx) && editingLatex == AttributeOrEmpty(span, "data-value")
    {
      mathEditorVisible := true;
      expressionEditable := true;
      editingFormulaIndex := Some(idx);
      editingLatex := AttributeOrEmpty(span, "data-value");
    }
  }

  /** The editor of the plain page (`src/components/Editor.jsx`). */
  class PlainEditor {
    var mathEditorVisible: bool
    var expressionEditable: bool
    var editingFormulaIndex: Option<nat>
    var editingLatex: string
    const quill: QuillDocument

    predicate Valid()
      reads this, quill
    {
      quill.selection <= |quill.items|
    }

    constructor(doc: QuillDocument)
      requires doc.selection <= |doc.items|
      ensures Valid() && quill == doc
      ensures !mathEditorVisible && !expressionEditable
      ensures editingFormulaIndex == None && editingLatex == ""
    {
      quill := doc;
      mathEditorVisible := false;
      expressionEditable := false;
      editingFormulaIndex := None;
      editingLatex := "";
    }

    /** `handleInsertFormula`: the same save as the maths editor, but the
        reset keeps the editing LaTeX. */
    method HandleInsertFormula(latex: string)
      requires Valid()
      modifies this, quill
      ensures Valid()
      ensures old(EditTarget(expressionEditable, editingFormulaIndex)).Some? ==>
        var p := ItemPosition(old(quill.items), old(EditTarget(expressionEditable, editingFormulaIndex)).value);
        quill.items == Replaced(old(quill.items), p, FinalLatex(latex)) && quill.selection == p + 2
      ensures old(EditTarget(expressionEditable, editingFormulaIndex)).None? ==>
        quill.items == Inserted(old(quill.items), old(quill.selection), [Formula(FinalLatex(latex)), Char(' ')])
        && quill.selection == old(quill.selection) + 2
      ensures !mathEditorVisible && !expressionEditable && editingFormulaIndex == None
      ensures editingLatex == old(editingLatex)
    {
      SaveFormula(quill, EditTarget(expressionEditable, editingFormulaIndex), latex);
      mathEditorVisible := false;
      expressionEditable := false;
      editingFormulaIndex := None;
    }

    method HandleCustomFormula()
      requires Valid()
      modifies quill
      ensures Valid()
      ensures quill.items == Inserted(old(quill.items), old(quill.selection), [Formula(CustomLatex), Char(' ')])
      ensures quill.selection == old(quill.selection) + 2
    {
      InsertCustomFormula(quill);
    }

    method ToggleMathEditor()
      modifies this
      ensures mathEditorVisible == !old(mathEditorVisible) && !expressionEditable
      ensures editingFormulaIndex == old(editingFormulaIndex) && editingLatex == old(editingLatex)
    {
      mathEditorVisible := !mathEditorVisible;
      expressionEditable := false;
    }

    method BeginEdit(idx: nat, span: Node)
      modifies this
      ensures mathEditorVisible && expressionEditable
      ensures editingFormulaIndex == Some(idx) && editingLatex == AttributeOrEmpty(span, "data-value")
    {
      mathEditorVisible := true;
      expressionEditable := true;
      editingFormulaIndex := Some(idx);
      editingLatex := AttributeOrEmpty(span, "data-value");
    }
  }

  /** Double-clicking a formula and saving new LaTeX in the maths editor
      replaces that formula, provided the document has no empty formula;
      afterwards everything is reset. */
  method EditClickedFormula(editor: MathsEditor, idx: nat, span: Node, latex: string)
    requires editor.Valid()
    requires NoEmptyFormula(editor.quill.items) && idx < FormulaCount(editor.quill.items)
    modifies editor, editor.quill
    ensures var p := SpanPosition(old(editor.quill.items), idx);
      editor.quill.items == Replaced(old(editor.quill.items), p, FinalLatex(latex))
      && editor.quill.selection == p + 2
    ensures !editor.mathEditorVisible && !editor.expressionEditable
    ensures editor.editingFormulaIndex == None && editor.editingLatex == ""
  {
    OffsetIsClickedSpan(editor.quill.items, idx);
    editor.BeginEdit(idx, span);
    editor.HandleInsertFormula(latex);
  }
}
