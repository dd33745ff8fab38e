/**
 * The editor rule that turns a one-item bullet or ordered list into a task
 * list once its only paragraph reads `[ ] `, `[x] ` or `[] ` with the cursor
 * at its end. It runs after every batch of transactions; the result is the
 * follow-up transaction, or `None` for "no transaction".
 */
module BulletToTaskList {
  import opened Wrappers
  import opened DocTree

  /** The follow-up transaction: the new document and the new selection's resolved position. */
  datatype Rewrite = Rewrite(doc: Node, selection: Cursor)

  /**
   * `text.match(/^\[( |x)?\] $/)`: `None` when the text does not match,
   * otherwise capture group 1, itself `None` when the optional group is empty.
   */
  function MatchMarker(text: string): Option<Option<char>> {
    if text == "[] " then Some(None)
    else if |text| == 4 && text[0] == '[' && text[2..] == "] " && (text[1] == ' ' || text[1] == 'x') then
      Some(Some(text[1]))
    else None
  }

  /** The three texts the pattern accepts; the group reads `x` for the checked marker only. */
  lemma {:induction false} MarkerTexts(text: string)
    ensures MatchMarker(text).Some? <==> text in {"[] ", "[ ] ", "[x] "}
    ensures MatchMarker(text) == Some(Some('x')) <==> text == "[x] "
  {
    if |text| == 4 && text[0] == '[' && text[2..] == "] " {
      assert text == ['[', text[1], ']', ' '];
    }
  }

  /** No proper prefix of a marker matches, so typing one character at a time converts only at the final space. */
  lemma {:induction false} MarkerPrefixesDoNotMatch(text: string, k: nat)
    requires text in {"[] ", "[ ] ", "[x] "} && k < |text|
    ensures MatchMarker(text[..k]).None?
  {
    assert |text[..k]| == k;
    if k == 3 {
      assert text[..k][2] == ']';
    }
  }

  const EmptyParagraph: Node := Node(Paragraph, map[], [], "")

  /** `taskList.create(null, taskItem.create({ checked }, paragraph.create()))`. */
  function EmptyTaskList(checked: bool): Node {
    Node(TaskList, map[], [Node(TaskItem, map["checked" := Flag(checked)], [EmptyParagraph], "")], "")
  }

  /**
   * The rule itself. `docChanged` holds each transaction's `docChanged` flag,
   * `schema` the node types the editor's schema defines, and `from` the
   * selection's `$from` in the new state.
   */
  function AppendTransaction(docChanged: seq<bool>, schema: set<Kind>, doc: Node, from: Cursor): Option<Rewrite>
    requires ValidCursor(doc, from)
  {
    if true !in docChanged then None
    else if |from.path| < 3 then None
    else
      var paragraph := NodeAt(doc, from.path);
      if paragraph.kind != Paragraph then None
      else
        var text := TextContent(paragraph);
        var marker := MatchMarker(text);
        if marker.None? then None
        else if from.offset != |text| then None
        else
          var listItem := Ancestor(doc, from.path, 1);
          var list := Ancestor(doc, from.path, 2);
          if listItem.kind != ListItem then None
          else if list.kind != BulletList && list.kind != OrderedList then None
          else if |list.children| != 1 then None
          else if TaskList !in schema || TaskItem !in schema then None
          else
            PrefixValid(doc, from.path, |from.path| - 2);
            Some(ReplaceWithTaskList(doc, from.path[..|from.path| - 2], marker.value == Some('x')))
  }

  /**
   * `tr.replaceWith(listPos, listPos + list.nodeSize, taskList)` followed by
   * `tr.setSelection(TextSelection.create(tr.doc, listPos + 3))`.
   */
  function ReplaceWithTaskList(doc: Node, listPath: Path, checked: bool): Rewrite
    requires ValidPath(doc, listPath) && listPath != []
  {
    var listPos := Before(doc, listPath);
    var newDoc := ReplaceAt(doc, listPath, EmptyTaskList(checked));
    NewSelectionResolves(doc, listPath, checked);
    Rewrite(newDoc, Resolve(newDoc, listPos + 3))
  }

  /** The new task list's first paragraph starts two tokens into its content. */
  lemma {:induction false} EmptyTaskListShape(checked: bool)
    ensures ValidPath(EmptyTaskList(checked), [0]) && ValidPath(EmptyTaskList(checked), [0, 0])
    ensures NodeAt(EmptyTaskList(checked), [0]) == EmptyTaskList(checked).children[0]
    ensures NodeAt(EmptyTaskList(checked), [0, 0]) == EmptyParagraph
    ensures ContentStart(EmptyTaskList(checked), [0, 0]) == 2
  {
    var item := EmptyTaskList(checked).children[0];
    assert [0, 0][0] == 0 && [0, 0][1..] == [0] && [0][1..] == [];
    assert ValidPath(EmptyParagraph, []) && ValidPath(item, [0]);
    assert NodeAt(item, [0]) == NodeAt(EmptyParagraph, []);
    assert ContentStart(item, [0]) == SizesTo(item.children, 0) + 1 + ContentStart(EmptyParagraph, []);
  }

  /**
   * In any document holding the new task list at `listPath`, the start of
   * its empty paragraph lies three positions after the list's start and
   * resolves to that paragraph.
   */
  lemma {:induction false} PlacedTaskList(doc: Node, listPath: Path, checked: bool)
    requires ValidPath(doc, listPath) && listPath != [] && NodeAt(doc, listPath) == EmptyTaskList(checked)
    ensures ValidPath(doc, listPath + [0]) && ValidPath(doc, listPath + [0, 0])
    ensures NodeAt(doc, listPath + [0]) == EmptyTaskList(checked).children[0]
    ensures NodeAt(doc, listPath + [0, 0]) == EmptyParagraph
    ensures ValidCursor(doc, Cursor(listPath + [0, 0], 0))
    ensures Position(doc, Cursor(listPath + [0, 0], 0)) == Before(doc, listPath) + 3
    ensures Before(doc, listPath) + 3 <= ContentSize(doc)
    ensures Resolve(doc, Before(doc, listPath) + 3) == Cursor(listPath + [0, 0], 0)
  {
    PlacedTaskListNodes(doc, listPath, checked);
    var path := listPath + [0, 0];
    ContentStartAppend(doc, listPath, [0, 0]);
    ContentStartAfterBefore(doc, listPath);
    ResolveContentStart(doc, path);
  }

  lemma {:induction false} PlacedTaskListNodes(doc: Node, listPath: Path, checked: bool)
    requires ValidPath(doc, listPath) && NodeAt(doc, listPath) == EmptyTaskList(checked)
    ensures ValidPath(doc, listPath + [0]) && ValidPath(doc, listPath + [0, 0])
    ensures NodeAt(doc, listPath + [0]) == EmptyTaskList(checked).children[0]
    ensures NodeAt(doc, listPath + [0, 0]) == EmptyParagraph
    ensures ValidPath(NodeAt(doc, listPath), [0, 0]) && ContentStart(NodeAt(doc, listPath), [0, 0]) == 2
  {
    EmptyTaskListShape(checked);
    NodeAtAppend(doc, listPath, [0]);
    NodeAtAppend(doc, listPath, [0, 0]);
  }

  /**
   * Position `listPos + 3` in the rewritten document is the start of the new
   * empty paragraph: past the task list's and the task item's opening tokens
   * and the paragraph's own.
   */
  lemma {:induction false} NewSelection(doc: Node, listPath: Path, checked: bool)
    requires ValidPath(doc, listPath) && listPath != []
    ensures ValidPath(ReplaceAt(doc, listPath, EmptyTaskList(checked)), listPath)
    ensures ValidPath(ReplaceAt(doc, listPath, EmptyTaskList(checked)), listPath + [0])
    ensures
      var newDoc := ReplaceAt(doc, listPath, EmptyTaskList(checked));
      var selection := Cursor(listPath + [0, 0], 0);
      && ValidCursor(newDoc, selection)
      && NodeAt(newDoc, listPath) == EmptyTaskList(checked)
      && NodeAt(newDoc, listPath + [0]) == EmptyTaskList(checked).children[0]
      && NodeAt(newDoc, selection.path) == EmptyParagraph
      && Position(newDoc, selection) == Before(doc, listPath) + 3
      && Before(doc, listPath) + 3 <= ContentSize(newDoc)
      && Resolve(newDoc, Before(doc, listPath) + 3) == selection
  {
    var newDoc := ReplaceAt(doc, listPath, EmptyTaskList(checked));
    ReplaceAtPlaces(doc, listPath, EmptyTaskList(checked));
    PlacedTaskList(newDoc, listPath, checked);
    ReplaceAtKeepsBefore(doc, listPath, EmptyTaskList(checked));
  }

  /** The part of `NewSelection` that the replacement itself needs. */
  lemma {:induction false} NewSelectionResolves(doc: Node, listPath: Path, checked: bool)
    requires ValidPath(doc, listPath) && listPath != []
    ensures
      var newDoc := ReplaceAt(doc, listPath, EmptyTaskList(checked));
      && Before(doc, listPath) + 3 <= ContentSize(newDoc)
      && Resolve(newDoc, Before(doc, listPath) + 3) == Cursor(listPath + [0, 0], 0)
  {
    NewSelection(doc, listPath, checked);
  }

  // ---------------------------------------------------------------------------
  // What the rule does

  /** The rule's trigger, stated with the three marker texts rather than the pattern. */
  predicate Triggered(docChanged: seq<bool>, schema: set<Kind>, doc: Node, from: Cursor)
    requires ValidCursor(doc, from)
  {
    && (exists i :: 0 <= i < |docChanged| && docChanged[i])
    && |from.path| >= 3
    && NodeAt(doc, from.path).kind == Paragraph
    && TextContent(NodeAt(doc, from.path)) in {"[] ", "[ ] ", "[x] "}
    && from.offset == |TextContent(NodeAt(doc, from.path))|
    && Ancestor(doc, from.path, 1).kind == ListItem
    && Ancestor(doc, from.path, 2).kind in {BulletList, OrderedList}
    && |Ancestor(doc, from.path, 2).children| == 1
    && TaskList in schema && TaskItem in schema
  }

  /** A follow-up transaction is produced exactly when the trigger holds. */
  lemma {:induction false} RewriteIffTriggered(docChanged: seq<bool>, schema: set<Kind>, doc: Node, from: Cursor)
    requires ValidCursor(doc, from)
    ensures AppendTransaction(docChanged, schema, doc, from).Some? <==> Triggered(docChanged, schema, doc, from)
  {
    assert (true in docChanged) <==> exists i :: 0 <= i < |docChanged| && docChanged[i] by {
      if true in docChanged {
        var i :| 0 <= i < |docChanged| && docChanged[i] == true;
      }
    }
    MarkerTexts(TextContent(NodeAt(doc, from.path)));
  }

  /**
   * When it fires, the rule replaces the list around the cursor by a task list
   * holding one empty task item, checked exactly for `[x] `, and puts the
   * cursor at the start of that item's paragraph.
   */
  lemma {:induction false} RewriteResult(docChanged: seq<bool>, schema: set<Kind>, doc: Node, from: Cursor)
    requires ValidCursor(doc, from) && AppendTransaction(docChanged, schema, doc, from).Some?
    ensures |from.path| >= 3 && ValidPath(doc, from.path[..|from.path| - 2])
    ensures
      var listPath := from.path[..|from.path| - 2];
      var checked := TextContent(NodeAt(doc, from.path)) == "[x] ";
      && AppendTransaction(docChanged, schema, doc, from).value.doc == ReplaceAt(doc, listPath, EmptyTaskList(checked))
      && AppendTransaction(docChanged, schema, doc, from).value.selection == Cursor(listPath + [0, 0], 0)
  {
    var text := TextContent(NodeAt(doc, from.path));
    var listPath := from.path[..|from.path| - 2];
    Fired(docChanged, schema, doc, from);
    MarkerTexts(text);
    var checked := MatchMarker(text).value == Some('x');
    assert checked == (text == "[x] ");
    ReplaceWithTaskListResult(doc, listPath, checked);
  }

  /** What a firing returns, before the new selection is worked out. */
  lemma {:induction false} Fired(docChanged: seq<bool>, schema: set<Kind>, doc: Node, from: Cursor)
    requires ValidCursor(doc, from) && AppendTransaction(docChanged, schema, doc, from).Some?
    ensures |from.path| >= 3 && ValidPath(doc, from.path[..|from.path| - 2]) && from.path[..|from.path| - 2] != []
    ensures MatchMarker(TextContent(NodeAt(doc, from.path))).Some?
    ensures
      var checked := MatchMarker(TextContent(NodeAt(doc, from.path))).value == Some('x');
      AppendTransaction(docChanged, schema, doc, from).value
        == ReplaceWithTaskList(doc, from.path[..|from.path| - 2], checked)
  {
    PrefixValid(doc, from.path, |from.path| - 2);
  }

  /** The replacement puts the new task list at the list's path and the cursor in its paragraph. */
  lemma {:induction false} ReplaceWithTaskListResult(doc: Node, listPath: Path, checked: bool)
    requires ValidPath(doc, listPath) && listPath != []
    ensures ReplaceWithTaskList(doc, listPath, checked).doc == ReplaceAt(doc, listPath, EmptyTaskList(checked))
    ensures ReplaceWithTaskList(doc, listPath, checked).selection == Cursor(listPath + [0, 0], 0)
  {
    NewSelectionResolves(doc, listPath, checked);
  }

  /** Every node outside the replaced list, its ancestors and its descendants is left as it was. */
  lemma {:induction false} RewriteFrame(docChanged: seq<bool>, schema: set<Kind>, doc: Node, from: Cursor)
    requires ValidCursor(doc, from) && AppendTransaction(docChanged, schema, doc, from).Some?
    ensures |from.path| >= 3
    ensures
      var listPath := from.path[..|from.path| - 2];
      var newDoc := AppendTransaction(docChanged, schema, doc, from).value.doc;
      forall q :: ValidPath(doc, q) && !IsPrefix(listPath, q) && !IsPrefix(q, listPath) ==>
        ValidPath(newDoc, q) && NodeAt(newDoc, q) == NodeAt(doc, q)
  {
    RewriteResult(docChanged, schema, doc, from);
    var listPath := from.path[..|from.path| - 2];
    var checked := TextContent(NodeAt(doc, from.path)) == "[x] ";
    forall q | ValidPath(doc, q) && !IsPrefix(listPath, q) && !IsPrefix(q, listPath)
      ensures ValidPath(ReplaceAt(doc, listPath, EmptyTaskList(checked)), q)
      ensures NodeAt(ReplaceAt(doc, listPath, EmptyTaskList(checked)), q) == NodeAt(doc, q)
    {
      ReplaceAtFrame(doc, listPath, EmptyTaskList(checked), q);
    }
  }

  /**
   * Each ancestor of the replaced list keeps its type and all its other
   * children: the document keeps its shape around the new task list.
   */
  lemma {:induction false} RewriteKeepsAncestors(docChanged: seq<bool>, schema: set<Kind>, doc: Node, from: Cursor, k: nat)
    requires ValidCursor(doc, from) && AppendTransaction(docChanged, schema, doc, from).Some?
    requires k < |from.path| - 2
    ensures |from.path| >= 3 && ValidPath(doc, from.path[..k])
    ensures
      var listPath := from.path[..|from.path| - 2];
      var newDoc := AppendTransaction(docChanged, schema, doc, from).value.doc;
      && ValidPath(newDoc, from.path[..k])
      && NodeAt(newDoc, from.path[..k]).kind == NodeAt(doc, from.path[..k]).kind
      && |NodeAt(newDoc, from.path[..k]).children| == |NodeAt(doc, from.path[..k]).children|
      && forall j :: 0 <= j < |NodeAt(doc, from.path[..k]).children| && j != from.path[k] ==>
           NodeAt(newDoc, from.path[..k]).children[j] == NodeAt(doc, from.path[..k]).children[j]
  {
    RewriteResult(docChanged, schema, doc, from);
    var listPath := from.path[..|from.path| - 2];
    var checked := TextContent(NodeAt(doc, from.path)) == "[x] ";
    PrefixValid(doc, from.path, |from.path| - 2);
    ReplaceAtAncestors(doc, listPath, EmptyTaskList(checked), k);
    assert listPath[..k] == from.path[..k] && listPath[k] == from.path[k];
  }

  /**
   * The new selection is a valid cursor at the start of the empty paragraph
   * of the new task item, right inside the task list, at position
   * `listPos + 3`.
   */
  lemma {:induction false} RewriteSelection(docChanged: seq<bool>, schema: set<Kind>, doc: Node, from: Cursor)
    requires ValidCursor(doc, from) && AppendTransaction(docChanged, schema, doc, from).Some?
    ensures |from.path| >= 3 && ValidPath(doc, from.path[..|from.path| - 2]) && from.path[..|from.path| - 2] != []
    ensures
      var r := AppendTransaction(docChanged, schema, doc, from).value;
      && ValidCursor(r.doc, r.selection)
      && |r.selection.path| >= 2
      && NodeAt(r.doc, r.selection.path) == EmptyParagraph
      && r.selection.offset == 0
      && Ancestor(r.doc, r.selection.path, 1).kind == TaskItem
      && Ancestor(r.doc, r.selection.path, 1).attrs == map["checked" := Flag(TextContent(NodeAt(doc, from.path)) == "[x] ")]
      && Ancestor(r.doc, r.selection.path, 2).kind == TaskList
      && Position(r.doc, r.selection) == Before(doc, from.path[..|from.path| - 2]) + 3
  {
    RewriteResult(docChanged, schema, doc, from);
    var listPath := from.path[..|from.path| - 2];
    var checked := TextContent(NodeAt(doc, from.path)) == "[x] ";
    NewSelection(doc, listPath, checked);
    var path := listPath + [0, 0];
    assert path[..|path| - 1] == listPath + [0];
    assert path[..|path| - 2] == listPath;
  }

  /** The rule never fires again on its own result: the new paragraph is empty. */
  lemma {:induction false} RewriteDoesNotRefire(docChanged: seq<bool>, schema: set<Kind>, doc: Node, from: Cursor, next: seq<bool>)
    requires ValidCursor(doc, from) && AppendTransaction(docChanged, schema, doc, from).Some?
    ensures
      var r := AppendTransaction(docChanged, schema, doc, from).value;
      ValidCursor(r.doc, r.selection) && AppendTransaction(next, schema, r.doc, r.selection).None?
  {
    RewriteSelection(docChanged, schema, doc, from);
    assert TextContent(EmptyParagraph) == "";
  }

  // ---------------------------------------------------------------------------
  // Documents like the editor's own test cases

  function TextNode(t: string): Node {
    Node(Text, map[], [], t)
  }

  function ParagraphOf(t: string): Node {
    Node(Paragraph, map[], [TextNode(t)], "")
  }

  function ItemOf(blocks: seq<Node>): Node {
    Node(ListItem, map[], blocks, "")
  }

  function DocOf(blocks: seq<Node>): Node {
    Node(Doc, map[], blocks, "")
  }

  /** The node types of an editor configured with the starter kit and the task list extensions. */
  const EditorSchema: set<Kind> := {Doc, Paragraph, Text, BulletList, OrderedList, ListItem, TaskList, TaskItem}

  /** A document that is one single-item list of `kind` whose item holds a paragraph of `text` and then `rest`. */
  function SingleItemDoc(kind: Kind, text: string, rest: seq<Node>): Node {
    DocOf([Node(kind, map[], [ItemOf([ParagraphOf(text)] + rest)], "")])
  }

  lemma {:induction false} SingleItemDocShape(kind: Kind, text: string, rest: seq<Node>)
    requires kind == BulletList || kind == OrderedList
    ensures
      var doc := SingleItemDoc(kind, text, rest);
      var from := Cursor([0, 0, 0], |text|);
      && ValidCursor(doc, from)
      && TextContent(NodeAt(doc, from.path)) == text
      && NodeAt(doc, from.path).kind == Paragraph
      && Ancestor(doc, from.path, 1).kind == ListItem
      && Ancestor(doc, from.path, 2).kind == kind
      && |Ancestor(doc, from.path, 2).children| == 1
  {
    var para := ParagraphOf(text);
    var item := ItemOf([para] + rest);
    var list := Node(kind, map[], [item], "");
    var doc := DocOf([list]);
    assert [0, 0, 0][1..] == [0, 0] && [0, 0][1..] == [0] && [0][1..] == [];
    assert ValidPath(item, [0]) && NodeAt(item, [0]) == para;
    assert ValidPath(list, [0, 0]) && NodeAt(list, [0, 0]) == para;
    assert ValidPath(doc, [0, 0, 0]) && NodeAt(doc, [0, 0, 0]) == para;
    assert TextsTo(para.children, 1) == TextsTo(para.children, 0) + TextContent(TextNode(text));
    assert ContentSize(para) == |text| by {
      assert SizesTo(para.children, 1) == SizesTo(para.children, 0) + NodeSize(TextNode(text));
    }
    assert [0, 0, 0][..1] == [0] && [0, 0, 0][..2] == [0, 0];
    assert ValidPath(doc, [0]) && NodeAt(doc, [0]) == list;
    assert ValidPath(doc, [0, 0]) && NodeAt(doc, [0, 0]) == item;
  }

  /**
   * A single-item list whose item starts with a paragraph of typed text, the
   * cursor at the end of that text, converts exactly for the three marker
   * texts, into a document that is only the new task list. Whatever else the
   * item held is gone.
   */
  lemma {:induction false} SingleItemList(kind: Kind, text: string, rest: seq<Node>)
    requires kind == BulletList || kind == OrderedList
    ensures ValidCursor(SingleItemDoc(kind, text, rest), Cursor([0, 0, 0], |text|))
    ensures
      var r := AppendTransaction([true], EditorSchema, SingleItemDoc(kind, text, rest), Cursor([0, 0, 0], |text|));
      && (r.Some? <==> text in {"[] ", "[ ] ", "[x] "})
      && (r.Some? ==> r.value.doc == DocOf([EmptyTaskList(text == "[x] ")]) && r.value.selection == Cursor([0, 0, 0], 0))
  {
    var doc := SingleItemDoc(kind, text, rest);
    var from := Cursor([0, 0, 0], |text|);
    SingleItemDocShape(kind, text, rest);
    RewriteIffTriggered([true], EditorSchema, doc, from);
    assert [true][0];
    if text in {"[] ", "[ ] ", "[x] "} {
      RewriteResult([true], EditorSchema, doc, from);
      assert from.path[..|from.path| - 2] == [0] && [0] + [0, 0] == [0, 0, 0];
      assert ReplaceAt(doc, [0], EmptyTaskList(text == "[x] ")) == DocOf([EmptyTaskList(text == "[x] ")]);
    }
  }

  /** Typing `[ ] ` into an empty bullet item gives an unchecked task item holding the cursor. */
  lemma {:induction false} TypingUncheckedMarker()
    ensures
      var doc := DocOf([Node(BulletList, map[], [ItemOf([ParagraphOf("[ ] ")])], "")]);
      var r := AppendTransaction([true], EditorSchema, doc, Cursor([0, 0, 0], 4));
      && r.Some? && r.value.doc == DocOf([EmptyTaskList(false)]) && r.value.selection == Cursor([0, 0, 0], 0)
  {
    SingleItemList(BulletList, "[ ] ", []);
    assert [ParagraphOf("[ ] ")] + [] == [ParagraphOf("[ ] ")];
  }

  /** Typing `[x] ` gives a checked task item. */
  lemma {:induction false} TypingCheckedMarker()
    ensures
      var doc := DocOf([Node(BulletList, map[], [ItemOf([ParagraphOf("[x] ")])], "")]);
      var r := AppendTransaction([true], EditorSchema, doc, Cursor([0, 0, 0], 4));
      && r.Some? && r.value.doc == DocOf([EmptyTaskList(true)]) && r.value.selection == Cursor([0, 0, 0], 0)
  {
    SingleItemList(BulletList, "[x] ", []);
    assert [ParagraphOf("[x] ")] + [] == [ParagraphOf("[x] ")];
  }

  /** The pattern as written also accepts `[] `, giving an unchecked item. */
  lemma {:induction false} TypingEmptyBrackets()
    ensures
      var doc := DocOf([Node(OrderedList, map[], [ItemOf([ParagraphOf("[] ")])], "")]);
      var r := AppendTransaction([true], EditorSchema, doc, Cursor([0, 0, 0], 3));
      && r.Some? && r.value.doc == DocOf([EmptyTaskList(false)]) && r.value.selection == Cursor([0, 0, 0], 0)
  {
    SingleItemList(OrderedList, "[] ", []);
    assert [ParagraphOf("[] ")] + [] == [ParagraphOf("[] ")];
  }

  /** `[ ]` without its trailing space and `[y] ` leave the list alone. */
  lemma {:induction false} IncompleteOrWrongMarker()
    ensures
      var doc := DocOf([Node(BulletList, map[], [ItemOf([ParagraphOf("[ ]")])], "")]);
      ValidCursor(doc, Cursor([0, 0, 0], 3)) && AppendTransaction([true], EditorSchema, doc, Cursor([0, 0, 0], 3)).None?
    ensures
      var doc := DocOf([Node(BulletList, map[], [ItemOf([ParagraphOf("[y] ")])], "")]);
      ValidCursor(doc, Cursor([0, 0, 0], 4)) && AppendTransaction([true], EditorSchema, doc, Cursor([0, 0, 0], 4)).None?
  {
    SingleItemList(BulletList, "[ ]", []);
    assert [ParagraphOf("[ ]")] + [] == [ParagraphOf("[ ]")];
    SingleItemList(BulletList, "[y] ", []);
    assert [ParagraphOf("[y] ")] + [] == [ParagraphOf("[y] ")];
  }

  /**
   * A marker in the second item of a two-item list leaves the list alone;
   * the rule converts single-item lists only.
   */
  lemma {:induction false} MultiItemListStays()
    ensures
      var list := Node(BulletList, map[], [ItemOf([ParagraphOf("first")]), ItemOf([ParagraphOf("[ ] ")])], "");
      var doc := DocOf([list]);
      ValidCursor(doc, Cursor([0, 1, 0], 4)) && AppendTransaction([true], EditorSchema, doc, Cursor([0, 1, 0], 4)).None?
  {
    var item := ItemOf([ParagraphOf("[ ] ")]);
    var list := Node(BulletList, map[], [ItemOf([ParagraphOf("first")]), item], "");
    var doc := DocOf([list]);
    var path := [0, 1, 0];
    assert path[1..] == [1, 0] && [1, 0][1..] == [0] && [0][1..] == [];
    assert ValidPath(item, [0]) && NodeAt(item, [0]) == ParagraphOf("[ ] ");
    assert ValidPath(list, [1, 0]) && ValidPath(doc, path);
    assert path[..1] == [0];
    assert ValidPath(doc, [0]) && NodeAt(doc, [0]) == list;
    assert Ancestor(doc, path, 2) == list;
    assert SizesTo(ParagraphOf("[ ] ").children, 1) == NodeSize(TextNode("[ ] "));
  }

  /**
   * The item's own content is not checked: a nested list under the marker
   * paragraph is dropped along with the rest of the old list.
   */
  lemma {:induction false} NestedContentDropped()
    ensures
      var nested := Node(BulletList, map[], [ItemOf([ParagraphOf("kept?")])], "");
      var doc := DocOf([Node(BulletList, map[], [ItemOf([ParagraphOf("[ ] "), nested])], "")]);
      var r := AppendTransaction([true], EditorSchema, doc, Cursor([0, 0, 0], 4));
      && r.Some? && r.value.doc == DocOf([EmptyTaskList(false)]) && r.value.selection == Cursor([0, 0, 0], 0)
  {
    var nested := Node(BulletList, map[], [ItemOf([ParagraphOf("kept?")])], "");
    SingleItemList(BulletList, "[ ] ", [nested]);
    assert [ParagraphOf("[ ] ")] + [nested] == [ParagraphOf("[ ] "), nested];
  }
}
