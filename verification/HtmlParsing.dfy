/** ingestion/html.py, the event handlers: what a sequence of parser events emits. */
module HtmlParsing {
  import opened Wrappers
  import opened Contracts
  import opened Whitespace
  import opened TextAssembly
  import opened LayoutBlocks
  import opened HtmlAssembly

  datatype Tag =
    | ScriptTag | StyleTag | TitleTag | MetaTag | TableTag | TrTag | TdTag | ThTag
    | HeadingTag(level: nat) | PTag | LiTag | OtherTag(name: string)

  datatype Event = StartTag(tag: Tag) | EndTag(tag: Tag) | Data(text: string)

  const IGNORED_TEXT_TAGS := {ScriptTag, StyleTag}
  const CELL_TAGS := {TdTag, ThTag}

  datatype OpenBlock = OpenBlock(tag: Tag, role: LayoutRole, parts: seq<string>)

  datatype ParserState = ParserState(
    items: seq<Item>, ignoredDepth: nat, inTitle: bool, block: Option<OpenBlock>,
    tableStack: seq<seq<seq<string>>>, currentRow: Option<seq<string>>, currentCell: Option<seq<string>>)

  const START := ParserState([], 0, false, None, [], None, None)

  /** `_normalize_text` */
  function NormalizeText(parts: seq<string>): string {
    Collapse(Joined(parts))
  }

  /** The role of the block that a tag opens outside and inside tables. */
  function BlockRole(tag: Tag): Option<LayoutRole> {
    match tag
    case HeadingTag(_) => Some(HeadingRole)
    case PTag => Some(ParagraphRole)
    case LiTag => Some(ListItemRole)
    case _ => None
  }

  /** `_flush_open_block`: a block without visible text is dropped. */
  function Flush(s: ParserState): ParserState {
    if s.block.None? then s
    else
      var text := NormalizeText(s.block.value.parts);
      s.(items := if text == [] then s.items else s.items + [BlockItem(s.block.value.role, text)], block := None)
  }

  function CloseCell(s: ParserState): ParserState {
    if s.currentCell.None? || s.currentRow.None? then s
    else s.(currentRow := Some(s.currentRow.value + [NormalizeText(s.currentCell.value)]), currentCell := None)
  }

  function CloseRow(s: ParserState): ParserState {
    if s.currentRow.None? then s
    else if s.tableStack == [] || s.currentRow.value == [] then s.(currentRow := None)
    else
      var n := |s.tableStack| - 1;
      s.(tableStack := s.tableStack[..n] + [s.tableStack[n] + [s.currentRow.value]], currentRow := None)
  }

  function CloseTable(s: ParserState): ParserState
    requires s.tableStack != []
  {
    var n := |s.tableStack| - 1;
    var rows := s.tableStack[n];
    s.(tableStack := s.tableStack[..n], items := if rows == [] then s.items else s.items + [TableItem(rows)])
  }

  function OpenTable(s: ParserState): ParserState {
    s.(tableStack := s.tableStack + [[]])
  }

  function OnStart(s: ParserState, tag: Tag): ParserState {
    if tag in IGNORED_TEXT_TAGS then s.(ignoredDepth := s.ignoredDepth + 1)
    else if tag == TitleTag then s.(inTitle := true)
    else if tag == MetaTag then s
    else if tag == TableTag then OpenTable(Flush(s))
    else if s.tableStack != [] && tag == TrTag then s.(currentRow := Some([]))
    else if s.tableStack != [] && tag in CELL_TAGS then s.(currentCell := Some([]))
    else if BlockRole(tag).Some? then Flush(s).(block := Some(OpenBlock(tag, BlockRole(tag).value, [])))
    else s
  }

  function OnEnd(s: ParserState, tag: Tag): ParserState {
    if tag in IGNORED_TEXT_TAGS && s.ignoredDepth > 0 then s.(ignoredDepth := s.ignoredDepth - 1)
    else if tag == TitleTag then s.(inTitle := false)
    else if s.tableStack != [] && tag in CELL_TAGS then CloseCell(s)
    else if s.tableStack != [] && tag == TrTag then CloseRow(s)
    else if s.tableStack != [] && tag == TableTag then CloseTable(s)
    else if s.block.Some? && s.block.value.tag == tag then Flush(s)
    else s
  }

  function OnData(s: ParserState, text: string): ParserState {
    if s.ignoredDepth > 0 || s.inTitle then s
    else if s.currentCell.Some? then s.(currentCell := Some(s.currentCell.value + [text]))
    else if s.block.Some? then s.(block := Some(s.block.value.(parts := s.block.value.parts + [text])))
    else s
  }

  function Step(s: ParserState, e: Event): ParserState {
    match e
    case StartTag(tag) => OnStart(s, tag)
    case EndTag(tag) => OnEnd(s, tag)
    case Data(text) => OnData(s, text)
  }

  function Run(events: seq<Event>): ParserState {
    if events == [] then START else Step(Run(events[..|events| - 1]), events[|events| - 1])
  }

  predicate NoEmptyRows(rows: seq<seq<string>>) {
    forall k :: 0 <= k < |rows| ==> rows[k] != []
  }

  predicate ItemRowsOk(item: Item) {
    item.TableItem? ==> NoEmptyRows(item.rows)
  }

  /** What every reachable state keeps: emitted items hold text, collected rows hold cells. */
  predicate StateOk(s: ParserState) {
    && ItemsOk(s.items) && (s.block.Some? ==> IsTextRole(s.block.value.role))
    && (forall k :: 0 <= k < |s.items| ==> ItemRowsOk(s.items[k]))
    && (forall k :: 0 <= k < |s.tableStack| ==> NoEmptyRows(s.tableStack[k]))
  }

  lemma FlushKeepsOk(s: ParserState)
    requires StateOk(s)
    ensures StateOk(Flush(s)) && s.items <= Flush(s).items
  {
    hide NormalizeText;
  }

  lemma ClosingKeepsOk(s: ParserState)
    requires StateOk(s)
    ensures StateOk(CloseCell(s)) && StateOk(CloseRow(s)) && CloseCell(s).items == CloseRow(s).items == s.items
    ensures s.tableStack != [] ==> StateOk(CloseTable(s)) && s.items <= CloseTable(s).items
  {
    hide NormalizeText, IsTextRole;
  }

  lemma StartKeepsOk(s: ParserState, tag: Tag)
    requires StateOk(s)
    ensures StateOk(OnStart(s, tag)) && s.items <= OnStart(s, tag).items
  {
    hide Flush, ItemsOk, ItemRowsOk;
    FlushKeepsOk(s);
  }

  lemma EndKeepsOk(s: ParserState, tag: Tag)
    requires StateOk(s)
    ensures StateOk(OnEnd(s, tag)) && s.items <= OnEnd(s, tag).items
  {
    hide Flush, CloseCell, CloseRow, CloseTable, ItemsOk, ItemRowsOk, NoEmptyRows, IsTextRole;
    FlushKeepsOk(s);
    ClosingKeepsOk(s);
  }

  lemma StepKeepsOk(s: ParserState, e: Event)
    requires StateOk(s)
    ensures StateOk(Step(s, e)) && s.items <= Step(s, e).items
  {
    hide OnStart, OnEnd, ItemsOk, ItemRowsOk, NoEmptyRows, IsTextRole;
    match e {
      case StartTag(tag) => StartKeepsOk(s, tag);
      case EndTag(tag) => EndKeepsOk(s, tag);
      case Data(text) =>
    }
  }

  lemma {:induction false} RunIsOk(events: seq<Event>)
    ensures StateOk(Run(events))
  {
    hide StateOk, Step;
    if events == [] {
      StartIsOk();
    } else {
      RunIsOk(events[..|events| - 1]);
      StepKeepsOk(Run(events[..|events| - 1]), events[|events| - 1]);
    }
  }

  lemma StartIsOk()
    ensures StateOk(START)
  {
  }

  /** Emission only appends. */
  lemma {:induction false} RunEmitsMore(events: seq<Event>, k: nat)
    requires k <= |events|
    ensures Run(events[..k]).items <= Run(events).items
  {
    hide StateOk, Step;
    if k < |events| {
      var front := events[..|events| - 1];
      RunEmitsMore(front, k);
      assert front[..k] == events[..k];
      RunIsOk(front);
      StepKeepsOk(Run(front), events[|events| - 1]);
    } else {
      assert events[..k] == events;
    }
  }

  /** Once a table has failed, the document has. */
  lemma {:induction false} FailureSticks(items: seq<Item>, more: seq<Item>)
    requires ItemsOk(items) && ItemsOk(more) && items <= more && Assemble(items).None?
    ensures Assemble(more).None?
  {
    hide AppendItem, ItemOk;
    if |items| < |more| {
      FailureSticks(items, more[..|more| - 1]);
    } else {
      assert items == more;
    }
  }
}
