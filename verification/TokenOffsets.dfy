/** chunker/token_offsets.py: token positions in the encoded text, and the two loops that move a
    token index to the next character boundary. */
module TokenOffsets {
  import opened Utf8
  import opened Wrappers

  datatype TokenOffsetError = ReconstructionMismatch | NonPositiveEnd | UnalignedFinalToken | InvalidTokenSpan | UnalignedSpan

  datatype TokenOffsetMap = TokenOffsetMap(tokenStarts: seq<nat>, tokenEnds: seq<nat>, byteToChar: map<nat, nat>)

  datatype TokenTextRange = TokenTextRange(startByte: nat, endByte: nat, startChar: nat, endChar: nat)

  /** `b"".join(pieces)` */
  function Join(pieces: seq<seq<Byte>>): seq<Byte> {
    if pieces == [] then [] else Join(pieces[..|pieces| - 1]) + pieces[|pieces| - 1]
  }

  /** Where token `i` starts, and where token `i - 1` ends. */
  function TokenStart(pieces: seq<seq<Byte>>, i: nat): nat
    requires i <= |pieces|
  {
    |Join(pieces[..i])|
  }

  /** The byte offset lies between two characters of the text. */
  predicate IsCharBoundary(text: string, b: nat) {
    exists k: nat :: k <= |text| && PrefixBytes(text, k) == b
  }

  /** `m` is exactly the inverse of `PrefixBytes(text, _)`. */
  ghost predicate InvertsPrefixBytes(m: map<nat, nat>, text: string) {
    && (forall k: nat :: k <= |text| ==> PrefixBytes(text, k) in m && m[PrefixBytes(text, k)] == k)
    && (forall b :: b in m ==> m[b] <= |text| && PrefixBytes(text, m[b]) == b)
  }

  /** The offset map describes how `pieces` tile the encoding of `text`. */
  ghost predicate Describes(o: TokenOffsetMap, text: string, pieces: seq<seq<Byte>>) {
    && |o.tokenStarts| == |o.tokenEnds| == |pieces|
    && (forall i :: 0 <= i < |pieces| ==> o.tokenStarts[i] == TokenStart(pieces, i))
    && (forall i :: 0 <= i < |pieces| ==> o.tokenEnds[i] == TokenStart(pieces, i + 1))
    && InvertsPrefixBytes(o.byteToChar, text)
  }

  method ByteToCharBoundaries(text: string) returns (boundaries: map<nat, nat>)
    ensures InvertsPrefixBytes(boundaries, text)
  {
    boundaries := map[0 := 0];
    var cursor := 0;
    PrefixBytesEnds(text);
    for i := 0 to |text|
      invariant cursor == PrefixBytes(text, i)
      invariant forall k: nat :: k <= i ==> PrefixBytes(text, k) in boundaries && boundaries[PrefixBytes(text, k)] == k
      invariant forall b :: b in boundaries ==> boundaries[b] <= i && PrefixBytes(text, boundaries[b]) == b
    {
      PrefixBytesStep(text, i);
      forall k: nat | k <= i ensures PrefixBytes(text, k) <= cursor { PrefixBytesMonotone(text, k, i); }
      cursor := cursor + |EncodeChar(text[i])|;
      boundaries := boundaries[cursor := i + 1];
    }
  }

  method BuildTokenOffsetMap(text: string, pieces: seq<seq<Byte>>) returns (r: Result<TokenOffsetMap, TokenOffsetError>)
    ensures r.Success? <==> Join(pieces) == Encode(text)
    ensures r.Success? ==> Describes(r.value, text, pieces)
    ensures r.Failure? ==> r.error == ReconstructionMismatch
  {
    var starts: seq<nat>, ends: seq<nat> := [], [];
    var cursor, joined := 0, [];
    for i := 0 to |pieces|
      invariant |starts| == |ends| == i
      invariant joined == Join(pieces[..i]) && cursor == |joined|
      invariant forall j :: 0 <= j < i ==> starts[j] == TokenStart(pieces, j)
      invariant forall j :: 0 <= j < i ==> ends[j] == TokenStart(pieces, j + 1)
    {
      assert pieces[..i + 1][..i] == pieces[..i];
      starts := starts + [cursor];
      cursor := cursor + |pieces[i]|;
      ends := ends + [cursor];
      joined := joined + pieces[i];
    }
    assert pieces[..|pieces|] == pieces;
    if joined != Encode(text) {
      return Failure(ReconstructionMismatch);
    }
    var boundaries := ByteToCharBoundaries(text);
    return Success(TokenOffsetMap(starts, ends, boundaries));
  }

  /** Token `i` starts between two characters. */
  predicate StartsAtBoundary(o: TokenOffsetMap, i: nat) {
    i < |o.tokenStarts| && o.tokenStarts[i] in o.byteToChar
  }

  /** The last token before the exclusive end `i` ends between two characters. */
  predicate EndsAtBoundary(o: TokenOffsetMap, i: nat) {
    0 < i <= |o.tokenEnds| && o.tokenEnds[i - 1] in o.byteToChar
  }

  /** Advances to the first token at or after `tokenIndex` that starts between two characters. */
  method NextTokenStartAtCharBoundary(tokenIndex: nat, o: TokenOffsetMap) returns (r: nat)
    ensures tokenIndex <= r
    ensures r < |o.tokenStarts| ==> StartsAtBoundary(o, r)
    ensures r <= |o.tokenStarts| || r == tokenIndex
    ensures forall i :: tokenIndex <= i < r ==> !StartsAtBoundary(o, i)
  {
    r := tokenIndex;
    while r < |o.tokenStarts| && o.tokenStarts[r] !in o.byteToChar
      invariant tokenIndex <= r
      invariant r <= |o.tokenStarts| || r == tokenIndex
      invariant forall i :: tokenIndex <= i < r ==> !StartsAtBoundary(o, i)
    {
      r := r + 1;
    }
  }

  /** Advances to the first exclusive end at or after `tokenIndex` whose last token ends between two characters. */
  method NextTokenEndAtCharBoundary(tokenIndex: nat, o: TokenOffsetMap) returns (r: Result<nat, TokenOffsetError>)
    ensures tokenIndex == 0 <==> r == Failure(NonPositiveEnd)
    ensures r == Failure(UnalignedFinalToken) <==>
      0 < tokenIndex <= |o.tokenEnds| && forall i :: tokenIndex <= i <= |o.tokenEnds| ==> !EndsAtBoundary(o, i)
    ensures r.Failure? ==> r.error in {NonPositiveEnd, UnalignedFinalToken}
    ensures r.Success? ==> tokenIndex <= r.value && forall i :: tokenIndex <= i < r.value ==> !EndsAtBoundary(o, i)
    ensures r.Success? && tokenIndex <= |o.tokenEnds| ==> EndsAtBoundary(o, r.value)
    ensures r.Success? && tokenIndex > |o.tokenEnds| ==> r.value == tokenIndex
  {
    if tokenIndex == 0 {
      return Failure(NonPositiveEnd);
    }
    var i := tokenIndex;
    while i < |o.tokenEnds| && o.tokenEnds[i - 1] !in o.byteToChar
      invariant tokenIndex <= i
      invariant i <= |o.tokenEnds| || i == tokenIndex
      invariant forall j :: tokenIndex <= j < i ==> !EndsAtBoundary(o, j)
    {
      i := i + 1;
    }
    if i == |o.tokenEnds| && o.tokenEnds[i - 1] !in o.byteToChar {
      return Failure(UnalignedFinalToken);
    }
    assert i <= |o.tokenEnds| ==> EndsAtBoundary(o, i);
    return Success(i);
  }

  function TokenSpanToTextRange(o: TokenOffsetMap, startToken: int, endToken: int): (r: Result<TokenTextRange, TokenOffsetError>)
    requires |o.tokenStarts| == |o.tokenEnds|
  {
    if startToken < 0 || endToken <= startToken || endToken > |o.tokenEnds| then Failure(InvalidTokenSpan)
    else
      var startByte, endByte := o.tokenStarts[startToken], o.tokenEnds[endToken - 1];
      if startByte in o.byteToChar && endByte in o.byteToChar
      then Success(TokenTextRange(startByte, endByte, o.byteToChar[startByte], o.byteToChar[endByte]))
      else Failure(UnalignedSpan)
  }

  lemma {:induction false} JoinSplit(pieces: seq<seq<Byte>>, i: nat)
    requires i <= |pieces|
    ensures Join(pieces) == Join(pieces[..i]) + Join(pieces[i..])
    decreases |pieces|
  {
    if i == |pieces| {
      assert pieces[..i] == pieces;
    } else {
      var front := pieces[..|pieces| - 1];
      JoinSplit(front, i);
      assert front[..i] == pieces[..i];
      assert pieces[i..][..|pieces[i..]| - 1] == front[i..];
    }
  }

  /** With non-empty pieces every further token starts at least one byte later. */
  lemma TokenStartMonotone(pieces: seq<seq<Byte>>, i: nat, j: nat)
    requires i <= j <= |pieces|
    ensures TokenStart(pieces, i) <= TokenStart(pieces, j) <= |Join(pieces)|
    ensures (forall p :: p in pieces ==> p != []) ==> TokenStart(pieces, i) + (j - i) <= TokenStart(pieces, j)
    decreases j - i
  {
    JoinSplit(pieces, j);
    if i < j {
      TokenStartMonotone(pieces, i, j - 1);
      assert pieces[..j][..j - 1] == pieces[..j - 1];
      assert pieces[j - 1] in pieces;
    }
  }

  /** Membership in the map that the code consults means lying between two characters. */
  lemma BoundaryMembership(o: TokenOffsetMap, text: string, b: nat)
    requires InvertsPrefixBytes(o.byteToChar, text)
    ensures b in o.byteToChar <==> IsCharBoundary(text, b)
  {
    if b in o.byteToChar {
      assert o.byteToChar[b] <= |text|;
    }
  }
}
