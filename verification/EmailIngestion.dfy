/** ingestion/email.py: header lines are put in front of the body, whose offsets and ids move with it. */
module EmailIngestion {
  import opened Utf8
  import opened Wrappers
  import opened Contracts
  import opened Whitespace
  import opened BoundaryContracts
  import opened TextAssembly
  import opened IngestedText

  const HEADER_LABELS := ["Subject", "From", "To", "Cc", "Date"]

  /** A header that is present and not blank, by its place in `HEADER_LABELS`. */
  datatype Header = Header(place: nat, value: string)

  /** `included_headers`: `values[k]` is the message's value of header `k`. */
  function Included(values: seq<Option<string>>): seq<Header> {
    if values == [] then []
    else
      var n := |values| - 1;
      Included(values[..n])
      + if values[n].Some? && Strip(values[n].value) != [] then [Header(n, values[n].value)] else []
  }

  function Label(place: nat): string {
    (if place < |HEADER_LABELS| then HEADER_LABELS[place] else "") + ": "
  }

  /** The three segments of header `position` of `count`. */
  function AppendHeader(a: Assembled, h: Header, position: nat, count: nat): Assembled {
    var labelled := Append(a, Label(h.place), EmailHeaderLabel(h.place), Generated);
    var valued := Append(labelled, Strip(h.value), EmailHeaderValue(h.place), Unmapped);
    Append(valued, if position == count - 1 then "\n\n" else "\n", EmailHeaderSeparator(position), Generated)
  }

  function HeadersUpTo(included: seq<Header>, k: nat): Assembled
    requires k <= |included|
  {
    if k == 0 then Assembled("", [])
    else AppendHeader(HeadersUpTo(included, k - 1), included[k - 1], k - 1, |included|)
  }

  function ShiftLayouts(spans: seq<LayoutSpan>, chars: nat, bytes: nat): seq<LayoutSpan> {
    seq(|spans|, i requires 0 <= i < |spans| =>
      LayoutSpan(EmailBodyLayout(spans[i].spanId), 1, spans[i].role, ShiftRange(spans[i].range, chars, bytes)))
  }

  function ShiftCells(cells: seq<TableCellSpan>, chars: nat, bytes: nat): seq<TableCellSpan> {
    seq(|cells|, i requires 0 <= i < |cells| =>
      cells[i].(cellId := EmailBodyCell(cells[i].cellId), range := ShiftRange(cells[i].range, chars, bytes)))
  }

  function ShiftTables(tables: seq<TableSpan>, chars: nat, bytes: nat): seq<TableSpan> {
    seq(|tables|, i requires 0 <= i < |tables| =>
      TableSpan(EmailBodyTable(tables[i].tableId), 1, ShiftRange(tables[i].range, chars, bytes), ShiftCells(tables[i].cells, chars, bytes)))
  }

  predicate HasStructure(body: Ingested) {
    body.layoutSpans != [] || body.tableSpans != [] || body.assembled.sourceMap != []
  }

  function WithBody(headers: Assembled, body: Ingested): Ingested {
    var chars, bytes := |headers.text|, ByteLength(headers.text);
    Ingested(
      if HasStructure(body) then Import(headers, body.assembled) else Append(headers, body.Text(), EmailPlainBody, Unmapped),
      ShiftLayouts(body.layoutSpans, chars, bytes), ShiftTables(body.tableSpans, chars, bytes))
  }

  method AppendHeaders(included: seq<Header>, assembler: TextAssembler)
    requires assembler.Valid() && assembler.State() == Assembled("", [])
    requires forall h :: h in included ==> Strip(h.value) != []
    modifies assembler
    ensures assembler.Valid() && assembler.State() == HeadersUpTo(included, |included|)
  {
    hide Append, NextRange, TextAssembler.Valid, Strip;
    for i := 0 to |included|
      invariant assembler.Valid() && assembler.State() == HeadersUpTo(included, i)
    {
      var h := included[i];
      LabelIsText(h.place);
      var labelRange := assembler.AddSegment(Label(h.place), EmailHeaderLabel(h.place), Generated);
      var valueRange := assembler.AddSegment(Strip(h.value), EmailHeaderValue(h.place), Unmapped);
      var separator := assembler.AddSegment(if i == |included| - 1 then "\n\n" else "\n", EmailHeaderSeparator(i), Generated);
    }
  }

  lemma LabelIsText(place: nat)
    ensures Label(place) != []
  {
    assert |Label(place)| >= 2;
  }

  lemma {:induction false} IncludedInOrder(values: seq<Option<string>>)
    ensures forall h :: h in Included(values) ==> Strip(h.value) != [] && h.place < |values|
    ensures forall i, j :: 0 <= i < j < |Included(values)| ==> Included(values)[i].place < Included(values)[j].place
  {
    hide Strip;
    if values != [] {
      IncludedInOrder(values[..|values| - 1]);
    }
  }

  datatype EmailError = NoBodyText | SourceBackedBody

  /** `extract_email_document`, from the decoded body on. */
  method ExtractEmail(values: seq<Option<string>>, body: Ingested) returns (r: Result<Ingested, EmailError>)
    ensures r == if body.Text() == [] then Failure(NoBodyText)
      else if HasStructure(body) && !NoneBacked(body.assembled.sourceMap) then Failure(SourceBackedBody)
      else Success(WithBody(HeadersUpTo(Included(values), |Included(values)|), body))
  {
    hide Append, TextAssembler.Valid, NoneBacked, Import, Included, HeadersUpTo, ShiftLayouts, ShiftTables;
    if body.Text() == [] {
      return Failure(NoBodyText);
    }
    var assembler := new TextAssembler();
    IncludedInOrder(values);
    AppendHeaders(Included(values), assembler);
    var headers := assembler.State();
    if HasStructure(body) {
      var ok := assembler.ImportResult(body.assembled);
      if !ok {
        return Failure(SourceBackedBody);
      }
    } else {
      var range := assembler.AddSegment(body.Text(), EmailPlainBody, Unmapped);
    }
    var chars, bytes := |headers.text|, ByteLength(headers.text);
    return Success(Ingested(assembler.State(), ShiftLayouts(body.layoutSpans, chars, bytes), ShiftTables(body.tableSpans, chars, bytes)));
  }
}
