/** source_support.py, the span checks: does a span match the document, and does it lie in
    source-backed text? */
module SourceBacking {
  import opened Utf8
  import opened Contracts
  import opened BoundaryContracts

  /** Some source-backed segment holds character position `i`. */
  predicate BackedAt(segments: seq<SourceMapSegment>, i: nat) {
    exists k :: 0 <= k < |segments| && Holds(segments[k], i) && segments[k].kind == SourceBacked
  }

  predicate Holds(s: SourceMapSegment, i: nat) {
    s.range.startChar <= i < s.range.endChar
  }

  /** Every character of the span is source-backed. */
  predicate FullyBacked(segments: seq<SourceMapSegment>, s: SourceSpan) {
    forall i :: s.startChar <= i < s.endChar ==> BackedAt(segments, i)
  }

  /** A contiguous map whose byte offsets are those of its character offsets. */
  predicate MapAligned(text: string, segments: seq<SourceMapSegment>) {
    && Contiguous(segments)
    && forall k :: 0 <= k < |segments| ==> RangeAligned(text, segments[k].range)
  }

  lemma {:induction false} SegmentsAreOrdered(segments: seq<SourceMapSegment>, text: string, i: nat, j: nat)
    requires MapAligned(text, segments) && i < j < |segments|
    ensures segments[i].range.endChar <= segments[j].range.startChar
    decreases j
  {
    assert StartsAtPreviousEnd(segments, j);
    if i < j - 1 {
      SegmentsAreOrdered(segments, text, i, j - 1);
    }
  }

  /** A position of a segment of another kind is not source-backed. */
  lemma OnlyItsOwnSegment(text: string, segments: seq<SourceMapSegment>, k: nat, i: nat)
    requires MapAligned(text, segments) && k < |segments| && Holds(segments[k], i) && segments[k].kind != SourceBacked
    ensures !BackedAt(segments, i)
  {
    hide MapAligned;
    forall j | 0 <= j < |segments| && j != k ensures !Holds(segments[j], i) {
      if j < k {
        SegmentsAreOrdered(segments, text, j, k);
      } else {
        SegmentsAreOrdered(segments, text, k, j);
      }
    }
  }

  /** A segment ends before the cursor in characters exactly when it does in bytes. */
  lemma EndsTogether(text: string, r: TextRange, cursor: nat)
    requires RangeAligned(text, r) && cursor <= |text|
    ensures r.endChar <= cursor <==> r.endByte <= PrefixBytes(text, cursor)
    ensures r.startChar <= cursor ==> r.startByte <= PrefixBytes(text, cursor)
    ensures r.endChar >= cursor ==> r.endByte >= PrefixBytes(text, cursor)
  {
    hide Encode;
    if r.endChar <= cursor {
      PrefixBytesMonotone(text, r.endChar, cursor);
    } else {
      PrefixBytesMonotone(text, cursor, r.endChar);
    }
    if r.startChar <= cursor {
      PrefixBytesMonotone(text, r.startChar, cursor);
    }
  }

  /** `_source_map_covers_span_with_source_segments` */
  method CoversSpan(d: Document, s: SourceSpan) returns (covers: bool)
    requires ValidSpan(s)
    ensures MapAligned(d.text, d.sourceMap) && SpanExact(d.text, s) ==> (covers <==> FullyBacked(d.sourceMap, s))
  {
    hide BackedAt, PrefixBytes, Contiguous;
    var segments := d.sourceMap;
    ghost var text := d.text;
    var currentChar, currentByte := s.startChar, s.startByte;
    ghost var regular := MapAligned(text, segments) && SpanExact(text, s);
    for k := 0 to |segments|
      invariant regular ==> s.startChar <= currentChar < s.endChar && currentByte == PrefixBytes(text, currentChar)
      invariant regular ==> forall i :: s.startChar <= i < currentChar ==> BackedAt(segments, i)
      invariant regular ==> PreviousEnd(segments, k).0 <= currentChar
    {
      var r := segments[k].range;
      if regular {
        SegmentStart(text, segments, k);
        EndsTogether(text, r, currentChar);
        EndsTogether(text, r, s.endChar);
      }
      if r.endChar <= currentChar && r.endByte <= currentByte {
        continue;
      }
      if r.startChar > currentChar || r.startByte > currentByte {
        return false;
      }
      if segments[k].kind != SourceBacked {
        if regular {
          OnlyItsOwnSegment(text, segments, k, currentChar);
        }
        return false;
      }
      if regular {
        SegmentBacks(segments, k, s.endChar);
      }
      currentChar, currentByte := Min(r.endChar, s.endChar), Min(r.endByte, s.endByte);
      if currentChar == s.endChar && currentByte == s.endByte {
        return true;
      }
    }
    if regular {
      NothingFurther(text, segments, currentChar);
    }
    return false;
  }

  function Min(a: nat, b: nat): nat {
    if a <= b then a else b
  }

  lemma SegmentStart(text: string, segments: seq<SourceMapSegment>, k: nat)
    requires MapAligned(text, segments) && k < |segments|
    ensures RangeAligned(text, segments[k].range) && segments[k].range.startChar == PreviousEnd(segments, k).0
  {
    assert StartsAtPreviousEnd(segments, k);
  }

  lemma SegmentBacks(segments: seq<SourceMapSegment>, k: nat, end: nat)
    requires k < |segments| && segments[k].kind == SourceBacked
    ensures forall i :: segments[k].range.startChar <= i < segments[k].range.endChar ==> BackedAt(segments, i)
  {
    forall i | segments[k].range.startChar <= i < segments[k].range.endChar ensures BackedAt(segments, i) {
      assert Holds(segments[k], i);
    }
  }

  lemma NothingFurther(text: string, segments: seq<SourceMapSegment>, i: nat)
    requires MapAligned(text, segments) && PreviousEnd(segments, |segments|).0 <= i
    ensures !BackedAt(segments, i)
  {
    hide MapAligned;
    forall k | 0 <= k < |segments| ensures !Holds(segments[k], i) {
      if k < |segments| - 1 {
        SegmentsAreOrdered(segments, text, k, |segments| - 1);
        SegmentStart(text, segments, |segments| - 1);
      }
    }
  }

  /** `_source_span_matches_document` */
  predicate SpanMatchesDocument(d: Document, s: SourceSpan) {
    && s.docId == d.docId && s.endChar <= |d.text| && s.endByte <= ByteLength(d.text)
    && Slice(d.text, s.startChar, s.endChar) == s.text
    && Slice(Encode(d.text), s.startByte, s.endByte) == Encode(s.text)
  }

  /** `source_span_is_source_backed`: an exact span of the document passes exactly when there is no map
      or all its characters are source-backed. */
  method IsSourceBacked(d: Document, s: SourceSpan) returns (backed: bool)
    requires ValidSpan(s)
    ensures backed ==> SpanMatchesDocument(d, s)
    ensures MapAligned(d.text, d.sourceMap) && SpanExact(d.text, s) ==>
      (backed <==> s.docId == d.docId && (d.sourceMap == [] || FullyBacked(d.sourceMap, s)))
  {
    hide MapAligned, FullyBacked, Encode;
    if SpanExact(d.text, s) {
      ExactSpanMatches(d, s);
    }
    if !SpanMatchesDocument(d, s) {
      return false;
    }
    if d.sourceMap == [] {
      return true;
    }
    backed := CoversSpan(d, s);
  }

  lemma ExactSpanMatches(d: Document, s: SourceSpan)
    requires ValidSpan(s) && SpanExact(d.text, s)
    ensures SpanMatchesDocument(d, s) <==> s.docId == d.docId
  {
    hide Encode;
    EncodeSlice(d.text, s.startChar, s.endChar);
  }

  /** A valid span matches a document exactly when its characters and its bytes are those slices of it. */
  lemma MatchesDocumentExactly(d: Document, s: SourceSpan)
    requires ValidSpan(s)
    ensures SpanMatchesDocument(d, s) <==>
      && s.docId == d.docId
      && s.endChar <= |d.text| && d.text[s.startChar..s.endChar] == s.text
      && s.endByte <= |Encode(d.text)| && Encode(d.text)[s.startByte..s.endByte] == Encode(s.text)
  {
    hide Encode;
  }
}
