/** chunker/packing.py against the document's spans: which blocks there are, and what the kind and the
    ids of a chunk say about the headings, paragraphs, list items and tables in it. */
module LayoutKinds {
  import opened Wrappers
  import opened Contracts
  import opened Sorting
  import opened Whitespace
  import opened BoundaryContracts
  import opened Packing
  import opened LayoutBlocks
  import opened GreedyPacking

  /** A heading, paragraph or list item that no table contains. */
  predicate IsText(d: Document, s: LayoutSpan) {
    && (s.role == HeadingRole || s.role == ParagraphRole || s.role == ListItemRole)
    && forall t :: t in d.tableSpans ==> s.range.startChar < t.range.startChar || t.range.endChar < s.range.endChar
  }

  predicate SameKind(role: LayoutRole, kind: BlockKind) {
    || (role == HeadingRole && kind == SectionBlock)
    || (role == ParagraphRole && kind == ParagraphBlock)
    || (role == ListItemRole && kind == ListItemBlock)
  }

  predicate ShowsText(b: ChunkBlock, s: LayoutSpan) {
    && b.startChar == s.range.startChar && b.endChar == s.range.endChar && SameKind(s.role, b.kind)
    && b.layoutSpanId == Some(s.spanId) && b.tableId == None
  }

  predicate ShowsTable(b: ChunkBlock, t: TableSpan) {
    && b.startChar == t.range.startChar && b.endChar == t.range.endChar && b.kind == TableBlock
    && b.layoutSpanId == None && b.tableId == Some(t.tableId)
  }

  lemma {:induction false} EachTableHasBlock(tables: seq<TableSpan>)
    ensures |TableBlocks(tables)| == |tables| && forall k :: 0 <= k < |tables| ==> ShowsTable(TableBlocks(tables)[k], tables[k])
  {
    if tables != [] {
      EachTableHasBlock(tables[1..]);
    }
  }

  predicate IsTextSpan(s: LayoutSpan, tables: seq<TableSpan>) {
    IsTextRole(s.role) && !InsideTable(s.range, tables)
  }

  lemma {:induction false} EachTextHasBlock(spans: seq<LayoutSpan>, tables: seq<TableSpan>)
    ensures forall s :: s in spans && IsTextSpan(s, tables) ==> exists b :: b in TextBlocks(spans, tables) && ShowsText(b, s)
    ensures forall b :: b in TextBlocks(spans, tables) ==> exists s :: s in spans && IsTextSpan(s, tables) && ShowsText(b, s)
  {
    hide IsTextSpan;
    if spans != [] {
      EachTextHasBlock(spans[1..], tables);
      var own := if IsTextSpan(spans[0], tables) then [BlockOfSpan(spans[0])] else [];
      OwnBlock(spans, tables);
      assert spans == [spans[0]] + spans[1..];
      forall s | s in spans && IsTextSpan(s, tables) ensures exists b :: b in TextBlocks(spans, tables) && ShowsText(b, s) {
        if s == spans[0] {
          assert own[0] in TextBlocks(spans, tables);
        } else {
          var b :| b in TextBlocks(spans[1..], tables) && ShowsText(b, s);
          assert b in TextBlocks(spans, tables);
        }
      }
    }
  }

  lemma OwnBlock(spans: seq<LayoutSpan>, tables: seq<TableSpan>)
    requires spans != []
    ensures TextBlocks(spans, tables) == (if IsTextSpan(spans[0], tables) then [BlockOfSpan(spans[0])] else []) + TextBlocks(spans[1..], tables)
    ensures IsTextSpan(spans[0], tables) ==> ShowsText(BlockOfSpan(spans[0]), spans[0])
  {
    hide InsideTable;
  }

  lemma {:induction false} TextIdsDiffer(spans: seq<LayoutSpan>, tables: seq<TableSpan>)
    requires forall i, j :: 0 <= i < j < |spans| ==> spans[i].spanId != spans[j].spanId
    ensures NoRepeats(TextBlocks(spans, tables))
  {
    hide IsTextSpan;
    if spans != [] {
      TextIdsDiffer(spans[1..], tables);
      EachTextHasBlock(spans[1..], tables);
      OwnBlock(spans, tables);
      var rest := TextBlocks(spans[1..], tables);
      forall k | 0 <= k < |rest| ensures rest[k] != BlockOfSpan(spans[0]) {
        assert rest[k] in rest;
        var s :| s in spans[1..] && ShowsText(rest[k], s);
        var m :| 0 <= m < |spans[1..]| && spans[1..][m] == s;
        assert spans[m + 1].spanId != spans[0].spanId;
      }
    }
  }

  lemma SameMultiset<T>(a: seq<T>, b: seq<T>)
    requires NoRepeats(a) && multiset(a) == multiset(b)
    ensures NoRepeats(b)
  {
    forall i, j | 0 <= i < j < |b| ensures b[i] != b[j] {
      if b[i] == b[j] {
        var x := b[i];
        assert b == b[..j] + [x] + b[j + 1..];
        assert b[..j][i] == x;
        assert multiset(b)[x] >= 2;
        OccursOnce(a, x);
      }
    }
  }

  lemma {:induction false} OccursOnce<T>(a: seq<T>, x: T)
    requires NoRepeats(a)
    ensures multiset(a)[x] <= 1
  {
    if a != [] {
      var front, last := a[..|a| - 1], a[|a| - 1];
      OccursOnce(front, x);
      assert a == front + [last];
      if last == x {
        assert forall i :: 0 <= i < |front| ==> front[i] == a[i] && a[i] != x;
        assert x !in front && x !in multiset(front);
      }
    }
  }

  /** Before the gaps are filled: one block for each text span outside tables, of its kind, one for each
      table, and no other. */
  lemma CollectedExactly(d: Document)
    requires IdsDiffer(d)
    ensures var blocks := CollectedBlocks(d);
      && (forall s :: s in d.layoutSpans && IsText(d, s) ==> exists b :: b in blocks && ShowsText(b, s))
      && (forall t :: t in d.tableSpans ==> exists b :: b in blocks && ShowsTable(b, t))
      && (forall b :: b in blocks ==>
            || (exists s :: s in d.layoutSpans && IsText(d, s) && ShowsText(b, s))
            || (exists t :: t in d.tableSpans && ShowsTable(b, t)))
      && NoRepeats(blocks)
  {
    hide NoRepeats, IsTextSpan, IsText, ShowsText, ShowsTable, SortBlocks;
    var tables, texts := TableBlocks(d.tableSpans), TextBlocks(d.layoutSpans, d.tableSpans);
    EachTableHasBlock(d.tableSpans);
    EachTextHasBlock(d.layoutSpans, d.tableSpans);
    SortKeepsMembers(tables + texts);
    forall b ensures b in CollectedBlocks(d) <==> b in tables || b in texts {
      assert b in multiset(SortBlocks(tables + texts)) <==> b in multiset(tables + texts);
    }
    forall s ensures IsText(d, s) <==> IsTextSpan(s, d.tableSpans) {
      TextIsTextSpan(d, s);
    }
    forall t | t in d.tableSpans ensures exists b :: b in tables && ShowsTable(b, t) {
      var k :| 0 <= k < |d.tableSpans| && d.tableSpans[k] == t;
      assert tables[k] in tables;
    }
    BlocksDiffer(d);
    SameMultiset(tables + texts, CollectedBlocks(d));
  }

  lemma TextIsTextSpan(d: Document, s: LayoutSpan)
    ensures IsText(d, s) <==> IsTextSpan(s, d.tableSpans)
  {
  }

  lemma BlocksDiffer(d: Document)
    requires IdsDiffer(d)
    ensures NoRepeats(TableBlocks(d.tableSpans) + TextBlocks(d.layoutSpans, d.tableSpans))
  {
    hide IsTextSpan;
    var tables, texts := TableBlocks(d.tableSpans), TextBlocks(d.layoutSpans, d.tableSpans);
    EachTableHasBlock(d.tableSpans);
    EachTextHasBlock(d.layoutSpans, d.tableSpans);
    forall i, j | 0 <= i < j < |d.layoutSpans| ensures d.layoutSpans[i].spanId != d.layoutSpans[j].spanId {
      assert LayoutIdsOf(d.layoutSpans)[i] != LayoutIdsOf(d.layoutSpans)[j];
    }
    TextIdsDiffer(d.layoutSpans, d.tableSpans);
    forall i, j | 0 <= i < j < |tables| ensures tables[i] != tables[j] {
      assert TableIdsOf(d.tableSpans)[i] != TableIdsOf(d.tableSpans)[j];
    }
    forall k | 0 <= k < |texts| ensures texts[k].kind != TableBlock {
      assert texts[k] in texts;
    }
  }

  /** The range lies, in characters and bytes, in the page of that number, which exists. */
  predicate OnItsPage(d: Document, number: nat, r: TextRange) {
    && (exists page :: page in d.pageMap && page.pageNumber == number)
    && forall page :: page in d.pageMap && page.pageNumber == number ==>
         Contains(TextRange(page.startChar, page.endChar, page.startByte, page.endByte), r)
  }

  /** The collector accepts a document exactly when its pages follow one another from start to end of the
      text and every span and table lies on its page. */
  lemma CollectsExactly(d: Document)
    ensures BoundariesCollect(d) <==>
      && PagesInTurn(d, d.pageMap, 0, 0)
      && (forall s :: s in d.layoutSpans ==> OnItsPage(d, s.pageNumber, s.range))
      && forall t :: t in d.tableSpans ==> OnItsPage(d, t.pageNumber, t.range)
  {
    hide PagesCover, PagesInTurn;
    PagesCoverExactly(d, d.pageMap, 0, 0);
    forall number, r ensures WithinItsPage(d, number, r) <==> OnItsPage(d, number, r) {}
  }
}
