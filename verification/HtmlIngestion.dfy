/** ingestion/html.py, the parser object, proved against the state machine, and what its documents
    satisfy. */
module HtmlIngestion {
  import opened Wrappers
  import opened Contracts
  import opened BoundaryContracts
  import opened TextAssembly
  import opened LayoutBlocks
  import opened IngestedText
  import opened HtmlTables
  import opened HtmlAssembly
  import opened HtmlSoundness
  import opened HtmlSlices
  import opened HtmlParsing
  import opened HtmlOutline

  /** What a parse yields: absent when the parser raises. */
  function Parse(events: seq<Event>): Option<Extraction> {
    RunIsOk(events);
    Assemble(Run(events).items)
  }

  class HtmlBoundaryParser {
    const assembler: TextAssembler
    var layoutSpans: seq<LayoutSpan>
    var tableSpans: seq<TableSpan>
    var blockIndex: nat
    var tableIndex: nat
    var ignoredDepth: nat
    var inTitle: bool
    var currentBlockTag: Option<Tag>
    var currentBlockRole: Option<LayoutRole>
    var currentBlockParts: seq<string>
    var tableStack: seq<seq<seq<string>>>
    var currentRow: Option<seq<string>>
    var currentCellParts: Option<seq<string>>
    ghost var items: seq<Item>

    /** What has been emitted so far. */
    function Extracted(): Extraction
      reads this`layoutSpans, this`tableSpans, this`blockIndex, this`tableIndex, assembler
    {
      Extraction(Ingested(assembler.State(), layoutSpans, tableSpans), blockIndex, tableIndex)
    }

    ghost predicate Emitted()
      reads this`layoutSpans, this`tableSpans, this`blockIndex, this`tableIndex, this`items, assembler
    {
      assembler.Valid() && ItemsOk(items) && Assemble(items) == Some(Extracted())
    }

    ghost predicate Valid()
      reads this, assembler
    {
      && Emitted() && (currentBlockTag.Some? <==> currentBlockRole.Some?)
      && StateOk(State())
    }

    ghost function Block(): Option<OpenBlock>
      reads this
    {
      if currentBlockTag.None? || currentBlockRole.None? then None
      else Some(OpenBlock(currentBlockTag.value, currentBlockRole.value, currentBlockParts))
    }

    ghost function State(): ParserState
      reads this
    {
      ParserState(items, ignoredDepth, inTitle, Block(), tableStack, currentRow, currentCellParts)
    }

    constructor ()
      ensures Valid() && State() == START && fresh(assembler)
    {
      assembler := new TextAssembler();
      layoutSpans, tableSpans, blockIndex, tableIndex, ignoredDepth, inTitle := [], [], 0, 0, 0, false;
      currentBlockTag, currentBlockRole, currentBlockParts := None, None, [];
      tableStack, currentRow, currentCellParts, items := [], None, None, [];
    }

    method AppendSeparator()
      requires assembler.Valid()
      modifies assembler
      ensures assembler.Valid()
      ensures assembler.State() == Separated(old(Extracted()))
    {
      hide Append;
      if assembler.parts != [] {
        var separator := assembler.AddSegment("\n", HtmlBlockSeparator(blockIndex), Generated);
      }
    }

    method EmitBlock(text: string, role: LayoutRole)
      requires Emitted() && text != [] && IsTextRole(role)
      modifies this`layoutSpans, this`blockIndex, this`items, assembler
      ensures Emitted() && items == old(items) + [BlockItem(role, text)]
    {
      hide Append, NextRange, Separated, AppendTable, TextAssembler.Valid;
      ghost var before := Extracted();
      AppendSeparator();
      var range := assembler.AddSegment(text, HtmlBlock(blockIndex), Unmapped);
      layoutSpans := layoutSpans + [LayoutSpan(HtmlBlockSpan(blockIndex), 1, role, range.value)];
      blockIndex := blockIndex + 1;
      items := items + [BlockItem(role, text)];
      AssembleSnoc(old(items), BlockItem(role, text), before);
    }

    /** It fails exactly when the table has an empty row or cell. */
    method EmitTable(rows: seq<seq<string>>) returns (ok: bool)
      requires Emitted()
      modifies this`layoutSpans, this`tableSpans, this`blockIndex, this`tableIndex, this`items, assembler
      ensures ok <==> AllFilled(rows)
      ensures ok ==> Emitted() && items == old(items) + (if rows == [] then [] else [TableItem(rows)])
    {
      hide Append, NextRange, Separated, AppendRows, TableOf, LayoutsOf, AllFilled, TextAssembler.Valid;
      ok := true;
      if rows == [] {
        NoRowsFilled(rows);
        return;
      }
      ghost var before := Extracted();
      AppendSeparator();
      var appended := AppendHtmlTableRows(rows, assembler, tableIndex);
      if appended.None? {
        return false;
      }
      tableSpans := tableSpans + [appended.value.0];
      layoutSpans := layoutSpans + appended.value.1;
      tableIndex := tableIndex + 1;
      blockIndex := blockIndex + 1;
      items := items + [TableItem(rows)];
      AssembleSnoc(old(items), TableItem(rows), before);
    }

    method FlushOpenBlock()
      requires Valid()
      modifies this, assembler
      ensures Valid() && State() == Flush(old(State()))
    {
      hide Emitted, NormalizeText;
      ghost var before := State();
      FlushKeepsOk(before);
      if currentBlockTag.None? || currentBlockRole.None? {
        return;
      }
      var text := NormalizeText(currentBlockParts);
      if text != "" {
        EmitBlock(text, currentBlockRole.value);
      }
      currentBlockTag, currentBlockRole, currentBlockParts := None, None, [];
    }

    method StartBlock(tag: Tag, role: LayoutRole)
      requires Valid() && IsTextRole(role)
      modifies this, assembler
      ensures Valid() && State() == Flush(old(State())).(block := Some(OpenBlock(tag, role, [])))
    {
      hide Emitted, Flush, ItemsOk, ItemRowsOk, NoEmptyRows, IsTextRole;
      FlushOpenBlock();
      currentBlockTag, currentBlockRole, currentBlockParts := Some(tag), Some(role), [];
    }

    method HandleStartTag(tag: Tag)
      requires Valid()
      modifies this, assembler
      ensures Valid() && State() == OnStart(old(State()), tag)
    {
      hide Emitted, Flush, StateOk;
      StartKeepsOk(State(), tag);
      if tag in IGNORED_TEXT_TAGS {
        ignoredDepth := ignoredDepth + 1;
      } else if tag == TitleTag {
        inTitle := true;
      } else if tag == MetaTag {
      } else if tag == TableTag {
        FlushKeepsOk(State());
        FlushOpenBlock();
        tableStack := tableStack + [[]];
      } else if tableStack != [] && tag == TrTag {
        currentRow := Some([]);
      } else if tableStack != [] && tag in CELL_TAGS {
        currentCellParts := Some([]);
      } else if BlockRole(tag).Some? {
        StartBlock(tag, BlockRole(tag).value);
      }
    }

    method CloseTableCell()
      requires Valid()
      modifies this`currentRow, this`currentCellParts
      ensures Valid() && State() == CloseCell(old(State()))
    {
      hide Emitted, NormalizeText, StateOk;
      ClosingKeepsOk(State());
      if currentCellParts.None? || currentRow.None? {
        return;
      }
      currentRow := Some(currentRow.value + [NormalizeText(currentCellParts.value)]);
      currentCellParts := None;
    }

    method CloseTableRow()
      requires Valid()
      modifies this`currentRow, this`tableStack
      ensures Valid() && State() == CloseRow(old(State()))
    {
      hide Emitted, StateOk;
      ClosingKeepsOk(State());
      if currentRow.None? {
        return;
      }
      if tableStack != [] && currentRow.value != [] {
        var n := |tableStack| - 1;
        tableStack := tableStack[..n] + [tableStack[n] + [currentRow.value]];
      }
      currentRow := None;
    }

    /** It fails exactly when the emitted document fails. */
    method CloseInnermostTable() returns (ok: bool)
      requires Valid() && tableStack != []
      modifies this, assembler
      ensures ok ==> Valid() && State() == CloseTable(old(State()))
      ensures !ok ==> ItemsOk(CloseTable(old(State())).items) && Assemble(CloseTable(old(State())).items).None?
    {
      hide NormalizeText, StateOk, Flush, AllFilled, AppendTable, AppendBlock;
      ghost var before := State();
      ghost var x := Extracted();
      ClosingKeepsOk(before);
      OkItems(before);
      var n := |tableStack| - 1;
      var rows := tableStack[n];
      tableStack := tableStack[..n];
      ok := EmitTable(rows);
      if !ok {
        NoRowsFilled([]);
        AssembleSnoc(before.items, TableItem(rows), x);
      } else {
        assert before.items + [] == before.items;
        assert State() == CloseTable(before);
      }
    }

    method HandleEndTag(tag: Tag) returns (ok: bool)
      requires Valid()
      modifies this, assembler
      ensures ok ==> Valid() && State() == OnEnd(old(State()), tag)
      ensures !ok ==> ItemsOk(OnEnd(old(State()), tag).items) && Assemble(OnEnd(old(State()), tag).items).None?
    {
      hide Emitted, Flush, StateOk, CloseCell, CloseRow, CloseTable, Assemble;
      EndKeepsOk(State(), tag);
      ok := true;
      if tag in IGNORED_TEXT_TAGS && ignoredDepth > 0 {
        ignoredDepth := ignoredDepth - 1;
      } else if tag == TitleTag {
        inTitle := false;
      } else if tableStack != [] && tag in CELL_TAGS {
        CloseTableCell();
      } else if tableStack != [] && tag == TrTag {
        CloseTableRow();
      } else if tableStack != [] && tag == TableTag {
        ok := CloseInnermostTable();
      } else if currentBlockTag == Some(tag) {
        FlushOpenBlock();
      }
    }

    method HandleData(text: string)
      requires Valid()
      modifies this`currentCellParts, this`currentBlockParts
      ensures Valid() && State() == OnData(old(State()), text)
    {
      hide Emitted, StateOk;
      StepKeepsOk(State(), Data(text));
      if ignoredDepth > 0 || inTitle {
        return;
      }
      if currentCellParts.Some? {
        currentCellParts := Some(currentCellParts.value + [text]);
        return;
      }
      if currentBlockTag.Some? {
        currentBlockParts := currentBlockParts + [text];
      }
    }

    method Handle(e: Event) returns (ok: bool)
      requires Valid()
      modifies this, assembler
      ensures ok ==> Valid() && State() == Step(old(State()), e)
      ensures !ok ==> ItemsOk(Step(old(State()), e).items) && Assemble(Step(old(State()), e).items).None?
    {
      hide Emitted, StateOk, OnStart, OnEnd, OnData, Assemble;
      ok := true;
      match e {
        case StartTag(tag) => HandleStartTag(tag);
        case EndTag(tag) => ok := HandleEndTag(tag);
        case Data(text) => HandleData(text);
      }
    }
  }

  lemma OkItems(s: ParserState)
    requires StateOk(s)
    ensures ItemsOk(s.items) && (s.tableStack != [] ==> ItemsOk(CloseTable(s).items))
  {
    ClosingKeepsOk(s);
  }

  datatype HtmlError = ParserFailed | NoVisibleText

  /** `extract_html_document`, from the events on; a block still open at the end is not flushed. */
  method ExtractHtml(events: seq<Event>) returns (r: Result<Ingested, HtmlError>)
    ensures r == match Parse(events)
      case None => Failure(ParserFailed)
      case Some(x) => if x.ingested.Text() == [] then Failure(NoVisibleText) else Success(x.ingested)
  {
    hide StateOk, Step, Assemble, HtmlBoundaryParser.Emitted, HtmlBoundaryParser.Block;
    var parser := new HtmlBoundaryParser();
    RunIsOk(events);
    for i := 0 to |events|
      invariant parser.Valid() && parser.State() == Run(events[..i])
      invariant fresh(parser) && fresh(parser.assembler)
    {
      assert events[..i + 1][..i] == events[..i];
      var ok := parser.Handle(events[i]);
      if !ok {
        OkItems(Run(events));
        RunEmitsMore(events, i + 1);
        FailureSticks(Run(events[..i + 1]).items, Run(events).items);
        return Failure(ParserFailed);
      }
    }
    assert events[..|events|] == events;
    ParserHolds(parser);
    var text := parser.assembler.State().text;
    if text == [] {
      return Failure(NoVisibleText);
    }
    return Success(parser.Extracted().ingested);
  }

  lemma ParserHolds(parser: HtmlBoundaryParser)
    requires parser.Valid()
    ensures ItemsOk(parser.State().items) && Assemble(parser.State().items) == Some(parser.Extracted())
  {
    hide StateOk, Assemble, HtmlBoundaryParser.Block;
  }

  lemma NoRowsFilled(rows: seq<seq<string>>)
    requires rows == []
    ensures AllFilled(rows)
  {
  }

  lemma AssembleSnoc(items: seq<Item>, item: Item, x: Extraction)
    requires ItemsOk(items) && ItemOk(item) && Assemble(items) == Some(x)
    ensures ItemsOk(items + [item]) && Assemble(items + [item]) == AppendItem(x, item)
  {
    assert (items + [item])[..|items|] == items;
  }

  predicate AllCellsVisible(items: seq<Item>) {
    forall k :: 0 <= k < |items| && items[k].TableItem? ==>
      forall r :: 0 <= r < |items[k].rows| ==> forall c :: 0 <= c < |items[k].rows[r]| ==> items[k].rows[r][c] != []
  }

  /** A parse raises exactly when some closed table holds a cell without visible text. */
  lemma ParsesExactly(events: seq<Event>)
    ensures Parse(events).Some? <==> AllCellsVisible(Run(events).items)
  {
    hide Run, Assemble, ItemsOk;
    RunIsOk(events);
    var items := Run(events).items;
    AssemblesExactly(items);
    forall k | 0 <= k < |items| && items[k].TableItem?
      ensures AllFilled(items[k].rows) <==>
        forall r :: 0 <= r < |items[k].rows| ==> forall c :: 0 <= c < |items[k].rows[r]| ==> items[k].rows[r][c] != []
    {
      assert ItemRowsOk(items[k]);
    }
  }

  /** For every sequence of events that does not raise: the document passes its validators, the packer's
      boundary checks pass and its blocks are in order, and every range is its own text. */
  lemma HtmlDocumentsAreAccepted(events: seq<Event>, docId: string, textSha256: string)
    requires Parse(events).Some? && Parse(events).value.ingested.Text() != []
    ensures var x := Parse(events).value;
      var d := DocumentOf(x.ingested, docId, textSha256);
      && Sound(x.ingested) && ValidDocument(d)
      && ValidLayout(d) && BoundariesCollect(d) && Ordered(CollectedBlocks(d))
      && Shows(x, Run(events).items)
  {
    hide Sound, Shows, Assemble, StateOk, Named, ValidDocument, ValidLayout, BoundariesCollect, Ordered, CollectedBlocks;
    RunIsOk(events);
    OkItems(Run(events));
    AssembledIsSound(Run(events).items);
    AssembledShows(Run(events).items);
    SoundMakesValidDocument(Parse(events).value.ingested, docId, textSha256);
    SoundIsPackable(Parse(events).value.ingested, docId, textSha256);
  }

  /** From events to document: text, layout spans, tables and cells show the outline of the events, in the
      roles of its tags. */
  lemma ParseShowsOutline(events: seq<Event>)
    ensures Parse(events).Some? ==>
      Shows(Parse(events).value, Outline(events, |events|)) && HasRoles(Parse(events).value.ingested.layoutSpans, SpanRoles(Outline(events, |events|)))
  {
    hide Shows, HasRoles, SpanRoles, Assemble, StateOk, TracksDepths, TracksCell, TracksRow, TracksBlock, TracksTables, Run, Outline;
    RunIsOk(events);
    assert events[..|events|] == events;
    RunTracks(events, |events|);
    OkItems(Run(events));
    AssembledShows(Run(events).items);
    AssembledRoles(Run(events).items);
  }
}
