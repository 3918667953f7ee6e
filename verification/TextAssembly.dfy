/** The `_TextAssembler` of ingestion/html.py and ingestion/email.py: text and source map grow together. */
module TextAssembly {
  import opened Utf8
  import opened Wrappers
  import opened Contracts
  import opened BoundaryContracts
  import opened SourceBacking

  datatype Assembled = Assembled(text: string, sourceMap: seq<SourceMapSegment>)

  /** The range that `more` takes when appended. */
  function NextRange(a: Assembled, more: string): TextRange {
    TextRange(|a.text|, |a.text| + |more|, ByteLength(a.text), ByteLength(a.text) + ByteLength(more))
  }

  function Append(a: Assembled, more: string, id: SegmentId, kind: SegmentKind): Assembled {
    Assembled(a.text + more, a.sourceMap + [SourceMapSegment(id, kind, NextRange(a, more))])
  }

  /** The map tiles the text with non-empty aligned ranges, none of them source-backed. */
  predicate WellAssembled(a: Assembled) {
    && MapAligned(a.text, a.sourceMap)
    && PreviousEnd(a.sourceMap, |a.sourceMap|) == (|a.text|, ByteLength(a.text))
    && forall s :: s in a.sourceMap ==> ValidRange(s.range) && s.kind != SourceBacked
  }

  lemma NothingAssembled()
    ensures WellAssembled(Assembled("", []))
  {
  }

  /** Offsets keep their meaning when text is appended. */
  lemma RangeStaysAligned(text: string, more: string, r: TextRange)
    requires RangeAligned(text, r)
    ensures RangeAligned(text + more, r)
    ensures (text + more)[r.startChar..r.endChar] == text[r.startChar..r.endChar]
  {
    assert (text + more)[..r.startChar] == text[..r.startChar];
    assert (text + more)[..r.endChar] == text[..r.endChar];
  }

  /** The appended text is a slice at its own range. */
  lemma NextRangeIsAligned(a: Assembled, more: string)
    requires more != []
    ensures var r := NextRange(a, more);
      ValidRange(r) && RangeAligned(a.text + more, r) && (a.text + more)[r.startChar..r.endChar] == more
  {
    hide Encode;
    assert (a.text + more)[..|a.text|] == a.text;
    assert (a.text + more)[..|a.text| + |more|] == a.text + more;
    EncodeConcat(a.text, more);
    assert |Encode(more)| >= |more|;
  }

  lemma AppendKeepsAssembled(a: Assembled, more: string, id: SegmentId, kind: SegmentKind)
    requires WellAssembled(a) && more != [] && kind != SourceBacked
    ensures WellAssembled(Append(a, more, id, kind))
  {
    hide RangeAligned, ValidRange, ByteLength;
    var b := Append(a, more, id, kind);
    NextRangeIsAligned(a, more);
    LengthOfAppended(a.text, more);
    forall k | 0 <= k < |b.sourceMap| ensures StartsAtPreviousEnd(b.sourceMap, k) && RangeAligned(b.text, b.sourceMap[k].range) {
      if k < |a.sourceMap| {
        assert StartsAtPreviousEnd(a.sourceMap, k);
        RangeStaysAligned(a.text, more, a.sourceMap[k].range);
      }
    }
  }

  lemma LengthOfAppended(text: string, more: string)
    ensures ByteLength(text + more) == ByteLength(text) + ByteLength(more)
  {
    EncodeConcat(text, more);
  }

  /** `_shift_range` */
  function ShiftRange(r: TextRange, chars: nat, bytes: nat): TextRange {
    TextRange(r.startChar + chars, r.endChar + chars, r.startByte + bytes, r.endByte + bytes)
  }

  function ShiftSegments(segments: seq<SourceMapSegment>, chars: nat, bytes: nat): seq<SourceMapSegment> {
    seq(|segments|, i requires 0 <= i < |segments| =>
      SourceMapSegment(EmailBodySegment(segments[i].segmentId), segments[i].kind, ShiftRange(segments[i].range, chars, bytes)))
  }

  function Import(a: Assembled, b: Assembled): Assembled {
    Assembled(a.text + b.text, a.sourceMap + ShiftSegments(b.sourceMap, |a.text|, ByteLength(a.text)))
  }

  predicate NoneBacked(segments: seq<SourceMapSegment>) {
    forall k :: 0 <= k < |segments| ==> segments[k].kind != SourceBacked
  }

  /** `"".join(parts)` */
  function Joined(parts: seq<string>): string {
    if parts == [] then [] else Joined(parts[..|parts| - 1]) + parts[|parts| - 1]
  }

  lemma JoinedSnoc(parts: seq<string>, more: string)
    ensures Joined(parts + [more]) == Joined(parts) + more
  {
    assert (parts + [more])[..|parts|] == parts;
  }

  class TextAssembler {
    var parts: seq<string>
    var sourceMap: seq<SourceMapSegment>
    var currentChar: nat
    var currentByte: nat

    ghost predicate Valid()
      reads this
    {
      && currentChar == |Joined(parts)| && currentByte == ByteLength(Joined(parts))
      && (parts == [] <==> Joined(parts) == [])
    }

    function State(): Assembled
      reads this
    {
      Assembled(Joined(parts), sourceMap)
    }

    constructor ()
      ensures Valid() && State() == Assembled("", [])
    {
      parts, sourceMap, currentChar, currentByte := [], [], 0, 0;
    }

    /** It fails exactly on empty text, and then changes nothing. */
    method AddSegment(text: string, id: SegmentId, kind: SegmentKind) returns (r: Option<TextRange>)
      requires Valid()
      modifies this
      ensures Valid()
      ensures r == if text == [] then None else Some(NextRange(old(State()), text))
      ensures State() == if text == [] then old(State()) else Append(old(State()), text, id, kind)
    {
      if text == [] {
        return None;
      }
      var startChar, startByte := currentChar, currentByte;
      JoinedSnoc(parts, text);
      LengthOfAppended(Joined(parts), text);
      parts := parts + [text];
      currentChar := currentChar + |text|;
      currentByte := currentByte + ByteLength(text);
      var range := TextRange(startChar, currentChar, startByte, currentByte);
      sourceMap := sourceMap + [SourceMapSegment(id, kind, range)];
      return Some(range);
    }

    /** `import_result` of the email assembler: it fails exactly on a source-backed segment. */
    method ImportResult(body: Assembled) returns (ok: bool)
      requires Valid() && body.text != []
      modifies this
      ensures Valid()
      ensures ok <==> NoneBacked(body.sourceMap)
      ensures ok ==> State() == Import(old(State()), body)
    {
      hide Joined, ByteLength, ShiftRange;
      var charOffset, byteOffset := currentChar, currentByte;
      JoinedSnoc(parts, body.text);
      LengthOfAppended(Joined(parts), body.text);
      parts := parts + [body.text];
      currentChar := currentChar + |body.text|;
      currentByte := currentByte + ByteLength(body.text);
      ghost var before := sourceMap;
      for i := 0 to |body.sourceMap|
        modifies this`sourceMap
        invariant sourceMap == before + ShiftSegments(body.sourceMap, charOffset, byteOffset)[..i]
        invariant NoneBacked(body.sourceMap[..i])
      {
        var segment := body.sourceMap[i];
        if segment.kind == SourceBacked {
          return false;
        }
        sourceMap := sourceMap + [SourceMapSegment(EmailBodySegment(segment.segmentId), segment.kind,
          ShiftRange(segment.range, charOffset, byteOffset))];
      }
      return true;
    }
  }
}
