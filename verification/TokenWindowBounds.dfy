/** What the sliding window promises about its whole result: progress, coverage, and how far the
    snapping to character boundaries can stretch a window or eat into an overlap. */
module TokenWindowBounds {
  import opened Utf8
  import opened Wrappers
  import opened Contracts
  import opened TokenOffsets
  import opened TokenWindow

  /** Starts and ends strictly increase, and a chunk starts no later than its predecessor ends. */
  lemma WindowProgress(d: Document, pieces: seq<seq<Byte>>, window: nat, overlap: nat, chunks: seq<Chunk>, k: nat)
    requires overlap < window && WindowChain(d, pieces, window, overlap, chunks) && 0 < k < |chunks|
    ensures chunks[k - 1].startToken < chunks[k].startToken <= chunks[k - 1].endToken < chunks[k].endToken
  {
    var bounds := Boundaries(d.text, pieces);
    assert IsWindow(bounds, |pieces|, window, chunks[k - 1]) && IsWindow(bounds, |pieces|, window, chunks[k]);
    assert Follows(bounds, |pieces|, overlap, chunks, k);
    assert chunks[k - 1].endToken in bounds;
  }

  /** Intervals that start at 0 and never leave a gap cover everything before the last end. */
  lemma IntervalsCover(starts: seq<nat>, ends: seq<nat>, i: nat) returns (k: nat)
    requires |starts| == |ends| > 0 && starts[0] == 0 && i < ends[|ends| - 1]
    requires forall j :: 0 <= j < |ends| - 1 ==> NoGap(starts, ends, j)
    ensures k < |starts| && starts[k] <= i < ends[k]
    decreases |starts|
  {
    var last := |ends| - 1;
    if starts[last] <= i {
      k := last;
    } else {
      assert NoGap(starts, ends, last - 1);
      forall j | 0 <= j < last - 1 ensures NoGap(starts[..last], ends[..last], j) {
        assert NoGap(starts, ends, j);
      }
      k := IntervalsCover(starts[..last], ends[..last], i);
    }
  }

  ghost predicate NoGap(starts: seq<nat>, ends: seq<nat>, j: nat) {
    j + 1 < |starts| == |ends| && starts[j + 1] <= ends[j]
  }

  /** Every token lies under some chunk. */
  lemma WindowCoversTokens(d: Document, pieces: seq<seq<Byte>>, window: nat, overlap: nat, chunks: seq<Chunk>, t: nat)
    returns (k: nat)
    requires overlap < window && WindowChain(d, pieces, window, overlap, chunks) && t < |pieces|
    ensures k < |chunks| && chunks[k].startToken <= t < chunks[k].endToken
  {
    hide AllTokenChunks, TokenChain;
    var starts, ends := seq(|chunks|, j requires 0 <= j < |chunks| => chunks[j].startToken),
                        seq(|chunks|, j requires 0 <= j < |chunks| => chunks[j].endToken);
    forall j | 0 <= j < |ends| - 1 ensures NoGap(starts, ends, j) {
      WindowProgress(d, pieces, window, overlap, chunks, j + 1);
    }
    k := IntervalsCover(starts, ends, t);
  }

  /** Every character of the document lies in some chunk. */
  lemma WindowCoversText(d: Document, pieces: seq<seq<Byte>>, window: nat, overlap: nat, chunks: seq<Chunk>, i: nat)
    returns (k: nat)
    requires overlap < window && Join(pieces) == Encode(d.text)
    requires WindowChain(d, pieces, window, overlap, chunks) && i < |d.text|
    ensures k < |chunks| && chunks[k].startChar <= i < chunks[k].endChar
  {
    hide AllTokenChunks, TokenChain, IsTokenChunk, Encode, Join;
    WindowSpansText(d, pieces, window, overlap, chunks);
    var starts, ends := seq(|chunks|, j requires 0 <= j < |chunks| => chunks[j].startChar),
                        seq(|chunks|, j requires 0 <= j < |chunks| => chunks[j].endChar);
    forall j | 0 <= j < |ends| - 1 ensures NoGap(starts, ends, j) {
      WindowProgress(d, pieces, window, overlap, chunks, j + 1);
      NextStartsWithin(d, pieces, chunks, j);
    }
    k := IntervalsCover(starts, ends, i);
  }

  lemma WindowSpansText(d: Document, pieces: seq<seq<Byte>>, window: nat, overlap: nat, chunks: seq<Chunk>)
    requires Join(pieces) == Encode(d.text) && WindowChain(d, pieces, window, overlap, chunks)
    ensures chunks[0].startChar == 0 && chunks[|chunks| - 1].endChar == |d.text|
  {
    ChunkStartsAtChar(d, pieces, chunks[0], 0);
    ChunkEndsAtChar(d, pieces, chunks[|chunks| - 1], |chunks| - 1);
  }

  lemma ChunkStartsAtChar(d: Document, pieces: seq<seq<Byte>>, c: Chunk, k: nat)
    requires IsTokenChunk(d, pieces, c, k) && c.startToken == 0
    ensures c.startChar == 0
  {
    PrefixBytesMonotone(d.text, 0, c.startChar);
    assert Join(pieces[..0]) == [];
  }

  lemma ChunkEndsAtChar(d: Document, pieces: seq<seq<Byte>>, c: Chunk, k: nat)
    requires Join(pieces) == Encode(d.text) && IsTokenChunk(d, pieces, c, k) && c.endToken == |pieces|
    ensures c.endChar == |d.text|
  {
    assert pieces[..|pieces|] == pieces;
    PrefixBytesEnds(d.text);
    PrefixBytesMonotone(d.text, c.endChar, |d.text|);
  }

  lemma NextStartsWithin(d: Document, pieces: seq<seq<Byte>>, chunks: seq<Chunk>, k: nat)
    requires AllTokenChunks(d, pieces, chunks) && k + 1 < |chunks|
    requires chunks[k + 1].startToken <= chunks[k].endToken
    ensures chunks[k + 1].startChar <= chunks[k].endChar
  {
    var here, next := chunks[k], chunks[k + 1];
    assert IsTokenChunk(d, pieces, here, k) && IsTokenChunk(d, pieces, next, k + 1);
    TokenStartMonotone(pieces, next.startToken, here.endToken);
    if here.endChar < next.startChar {
      PrefixBytesMonotone(d.text, here.endChar, next.startChar);
    }
  }

  /** No `m + 1` consecutive token positions all fall inside characters. */
  ghost predicate RunsAtMost(bounds: set<int>, n: nat, m: nat) {
    forall i :: 0 <= i <= n - m ==> HasBoundary(bounds, i, m)
  }

  ghost predicate HasBoundary(bounds: set<int>, lo: int, m: nat) {
    exists j :: lo <= j <= lo + m && j in bounds
  }

  /** A window is stretched, and an overlap shortened, by at most the longest run of token positions
      inside characters. The overlap is never longer than asked for. */
  lemma WindowStretch(d: Document, pieces: seq<seq<Byte>>, window: nat, overlap: nat, chunks: seq<Chunk>, k: nat, m: nat)
    requires overlap < window && WindowChain(d, pieces, window, overlap, chunks) && k < |chunks|
    requires Join(pieces) == Encode(d.text) && RunsAtMost(Boundaries(d.text, pieces), |pieces|, m)
    ensures chunks[k].endToken - chunks[k].startToken <= window + m
    ensures k > 0 ==> overlap - m <= chunks[k - 1].endToken - chunks[k].startToken <= overlap
  {
    hide AllTokenChunks, Encode, Join;
    var bounds, n := Boundaries(d.text, pieces), |pieces|;
    OuterBoundaries(d.text, pieces);
    var c := chunks[k];
    assert IsWindow(bounds, n, window, c);
    FirstIsNear(bounds, n, m, Min(c.startToken + window, n), c.endToken);
    if k > 0 {
      assert Follows(bounds, n, overlap, chunks, k) && IsWindow(bounds, n, window, chunks[k - 1]);
      FirstIsNear(bounds, n, m, Max(chunks[k - 1].endToken - overlap, chunks[k - 1].startToken + 1), c.startToken);
    }
  }

  /** In one configuration, chunk `k` stays within `window + m` tokens exactly when the tokens end within
      the window or one of the `m + 1` positions from the end of a full window lies between characters. */
  lemma WindowStretchExactly(d: Document, pieces: seq<seq<Byte>>, window: nat, overlap: nat, chunks: seq<Chunk>, k: nat, m: nat)
    requires overlap < window && WindowChain(d, pieces, window, overlap, chunks) && k < |chunks| && Join(pieces) == Encode(d.text)
    ensures chunks[k].endToken - chunks[k].startToken <= window + m <==>
      chunks[k].startToken + window >= |pieces| || HasBoundary(Boundaries(d.text, pieces), chunks[k].startToken + window, m)
  {
    hide AllTokenChunks, Encode, Join, Boundaries;
    OuterBoundaries(d.text, pieces);
    assert IsWindow(Boundaries(d.text, pieces), |pieces|, window, chunks[k]);
  }

  lemma FirstIsNear(bounds: set<int>, n: nat, m: nat, lo: int, r: int)
    requires RunsAtMost(bounds, n, m) && n in bounds && 0 <= lo <= n && IsFirst(bounds, lo, r)
    ensures r <= lo + m
  {
    if lo + m <= n {
      assert HasBoundary(bounds, lo, m);
      var j :| lo <= j <= lo + m && j in bounds;
    }
  }

  /** A token that starts inside a character ends inside it or with it. */
  ghost predicate NoStraddling(text: string, pieces: seq<seq<Byte>>) {
    forall i, k :: 0 <= i < |pieces| && 0 <= k <= |text| && i !in Boundaries(text, pieces) ==> !CrossesInto(text, pieces, i, k)
  }

  ghost predicate CrossesInto(text: string, pieces: seq<seq<Byte>>, i: nat, k: nat)
    requires i < |pieces| && k <= |text|
  {
    TokenStart(pieces, i) < PrefixBytes(text, k) < TokenStart(pieces, i + 1)
  }

  /** Since a character has at most four octets, tokens that never straddle characters leave runs of
      at most three positions inside a character. */
  lemma NoStraddlingRuns(text: string, pieces: seq<seq<Byte>>)
    requires Tokenizes(text, pieces) && NoStraddling(text, pieces)
    ensures RunsAtMost(Boundaries(text, pieces), |pieces|, 3)
  {
    var bounds := Boundaries(text, pieces);
    forall i | 0 <= i <= |pieces| - 3 ensures HasBoundary(bounds, i, 3) {
      if i !in bounds {
        RunInsideChar(text, pieces, i);
      }
    }
  }

  lemma RunInsideChar(text: string, pieces: seq<seq<Byte>>, i: nat)
    requires Tokenizes(text, pieces) && NoStraddling(text, pieces)
    requires i + 3 <= |pieces| && i !in Boundaries(text, pieces)
    ensures HasBoundary(Boundaries(text, pieces), i, 3)
  {
    TokenStartMonotone(pieces, i, |pieces|);
    PrefixBytesEnds(text);
    var k := EnclosingChar(text, TokenStart(pieces, i), |text|);
    PrefixBytesStep(text, k);
    StepInsideChar(text, pieces, i, k);
    if i + 1 !in Boundaries(text, pieces) {
      StepInsideChar(text, pieces, i + 1, k);
      if i + 2 !in Boundaries(text, pieces) {
        StepInsideChar(text, pieces, i + 2, k);
      }
    }
  }

  lemma EnclosingChar(text: string, b: nat, hi: nat) returns (k: nat)
    requires hi <= |text| && b <= PrefixBytes(text, hi) && !IsCharBoundary(text, b)
    ensures k < hi && PrefixBytes(text, k) < b < PrefixBytes(text, k + 1)
    decreases hi
  {
    assert b != PrefixBytes(text, hi);
    if hi == 0 || PrefixBytes(text, hi - 1) < b {
      k := hi - 1;
    } else {
      k := EnclosingChar(text, b, hi - 1);
    }
  }

  /** From a position inside character `k`, the next position is at least a byte further and still
      inside the character, or exactly at its end. */
  lemma StepInsideChar(text: string, pieces: seq<seq<Byte>>, i: nat, k: nat)
    requires Tokenizes(text, pieces) && NoStraddling(text, pieces) && i < |pieces| && k < |text|
    requires PrefixBytes(text, k) < TokenStart(pieces, i) < PrefixBytes(text, k + 1)
    requires i !in Boundaries(text, pieces)
    ensures TokenStart(pieces, i) < TokenStart(pieces, i + 1) <= PrefixBytes(text, k + 1)
    ensures i + 1 !in Boundaries(text, pieces) ==> TokenStart(pieces, i + 1) < PrefixBytes(text, k + 1)
    ensures TokenStart(pieces, i + 1) == PrefixBytes(text, k + 1) ==> i + 1 in Boundaries(text, pieces)
  {
    TokenStartMonotone(pieces, i, i + 1);
    assert !CrossesInto(text, pieces, i, k + 1);
  }

  lemma FirstExists(bounds: set<int>, lo: int, n: int) returns (r: int)
    requires lo <= n && n in bounds
    ensures IsFirst(bounds, lo, r) && r <= n
    decreases n - lo
  {
    if lo in bounds {
      r := lo;
    } else {
      r := FirstExists(bounds, lo + 1, n);
    }
  }

  /** The chunk list that the loop would go on to build. */
  lemma CompleteChain(d: Document, pieces: seq<seq<Byte>>, window: nat, overlap: nat, o: TokenOffsetMap, chunks: seq<Chunk>, from: int)
    returns (all: seq<Chunk>)
    requires overlap < window && Tokenizes(d.text, pieces) && Describes(o, d.text, pieces)
    requires Sliding(Boundaries(d.text, pieces), |pieces|, window, overlap, chunks, from)
    requires AllTokenChunks(d, pieces, chunks)
    ensures WindowChain(d, pieces, window, overlap, all)
    decreases |pieces| - from
  {
    hide Describes, AllTokenChunks, TokenChain, IsTokenChunk, BuildChunk, Boundaries, WindowChain, IsCharBoundary, Encode, Join;
    var bounds, n := Boundaries(d.text, pieces), |pieces|;
    OuterBoundaries(d.text, pieces);
    SlidingIsBeforeEnd(bounds, n, window, overlap, chunks, from);
    var start := FirstExists(bounds, from, n);
    SnappedStart(bounds, n, window, overlap, chunks, from, start);
    var end := FirstExists(bounds, Min(start + window, n), n);
    BuildChunkIsExact(d, pieces, |chunks|, start, end, o);
    var c := BuildChunk(d, |chunks|, start, end, o).value;
    SnappedEnd(bounds, n, window, overlap, chunks, from, c);
    AppendTokenChunk(d, pieces, chunks, c);
    if end < n {
      all := CompleteChain(d, pieces, window, overlap, o, chunks + [c], Max(end - overlap, start + 1));
    } else {
      all := chunks + [c];
      ClosedChain(d, pieces, window, overlap, all);
    }
  }

  lemma SlidingIsBeforeEnd(bounds: set<int>, n: nat, window: nat, overlap: nat, chunks: seq<Chunk>, from: int)
    requires 0 < n && Sliding(bounds, n, window, overlap, chunks, from)
    ensures 0 <= from < n
  {
    if chunks != [] {
      assert IsWindow(bounds, n, window, chunks[|chunks| - 1]);
    }
  }

  lemma ClosedChain(d: Document, pieces: seq<seq<Byte>>, window: nat, overlap: nat, chunks: seq<Chunk>)
    requires TokenChain(Boundaries(d.text, pieces), |pieces|, window, overlap, chunks) && AllTokenChunks(d, pieces, chunks)
    requires chunks != [] && chunks[0].startToken == 0 && chunks[|chunks| - 1].endToken == |pieces|
    ensures WindowChain(d, pieces, window, overlap, chunks)
  {
  }

  ghost predicate TokensAtMost(chunks: seq<Chunk>, m: nat) {
    forall k :: 0 <= k < |chunks| ==> chunks[k].endToken - chunks[k].startToken <= m
  }

  /** In every configuration and every chunk a window stays within `window + m` tokens ... */
  ghost predicate StretchAtMost(d: Document, pieces: seq<seq<Byte>>, m: nat) {
    forall window: nat, overlap: nat, chunks: seq<Chunk> ::
      overlap < window && WindowChain(d, pieces, window, overlap, chunks) ==> TokensAtMost(chunks, window + m)
  }

  /** ... exactly when at most `m` consecutive token positions fall inside characters. For `m == 3`
      this is the exact condition for the bound that a four-octet character suggests. */
  lemma StretchExactly(d: Document, pieces: seq<seq<Byte>>, o: TokenOffsetMap, m: nat)
    requires Tokenizes(d.text, pieces) && Describes(o, d.text, pieces)
    ensures StretchAtMost(d, pieces, m) <==> RunsAtMost(Boundaries(d.text, pieces), |pieces|, m)
  {
    hide Describes, WindowChain, Boundaries, Encode, Join;
    if RunsAtMost(Boundaries(d.text, pieces), |pieces|, m) {
      forall window: nat, overlap: nat, chunks: seq<Chunk> | overlap < window && WindowChain(d, pieces, window, overlap, chunks)
        ensures TokensAtMost(chunks, window + m)
      {
        forall k | 0 <= k < |chunks| ensures chunks[k].endToken - chunks[k].startToken <= window + m {
          WindowStretch(d, pieces, window, overlap, chunks, k, m);
        }
      }
    } else {
      LongRunStretches(d, pieces, o, m);
    }
  }

  lemma LongRunStretches(d: Document, pieces: seq<seq<Byte>>, o: TokenOffsetMap, m: nat)
    requires Tokenizes(d.text, pieces) && Describes(o, d.text, pieces)
    requires !RunsAtMost(Boundaries(d.text, pieces), |pieces|, m)
    ensures !StretchAtMost(d, pieces, m)
  {
    hide Describes, Boundaries, Encode, Join, IsTokenChunk;
    var bounds, n := Boundaries(d.text, pieces), |pieces|;
    OuterBoundaries(d.text, pieces);
    var i :| 0 <= i <= n - m && !HasBoundary(bounds, i, m);
    assert i > 0;
    var all := CompleteChain(d, pieces, i, 0, o, [], 0);
    assert IsWindow(bounds, n, i, all[0]);
    assert all[0].endToken > i + m;
    assert !TokensAtMost(all, i + m);
  }

  const FOUR_OCTETS := "\U{1F600}\U{1F600}\U{1F600}\U{1F600}"

  /** Tokens of a byte-level tokenizer that straddle every character of the text. */
  ghost function StraddlingPieces(): seq<seq<Byte>> {
    var b := Encode(FOUR_OCTETS);
    [b[..1], b[1..5], b[5..9], b[9..13], b[13..]]
  }

  /** The bound of three extra tokens does not hold of every tokenization. */
  lemma StraddlingBreaksTheBound(d: Document, o: TokenOffsetMap)
    requires d.text == FOUR_OCTETS && Describes(o, d.text, StraddlingPieces())
    ensures Tokenizes(d.text, StraddlingPieces())
    ensures !StretchAtMost(d, StraddlingPieces(), 3)
  {
    StraddlingTokenizes();
    var bounds := Boundaries(d.text, StraddlingPieces());
    forall i | 1 <= i <= 4 ensures i !in bounds {
      StraddlingPosition(i);
    }
    assert !HasBoundary(bounds, 1, 3);
    LongRunStretches(d, StraddlingPieces(), o, 3);
  }

  lemma FourOctetPrefix(k: nat)
    requires k <= 4
    ensures PrefixBytes(FOUR_OCTETS, k) == 4 * k
  {
    if k > 0 {
      FourOctetPrefix(k - 1);
      PrefixBytesStep(FOUR_OCTETS, k - 1);
    }
  }

  lemma StraddlingTokenizes()
    ensures |Encode(FOUR_OCTETS)| == 16 && Tokenizes(FOUR_OCTETS, StraddlingPieces())
    ensures forall i :: 1 <= i <= 4 ==> TokenStart(StraddlingPieces(), i) == 4 * i - 3
  {
    FourOctetPrefix(4);
    PrefixBytesEnds(FOUR_OCTETS);
    var b: seq<Byte>, p: seq<seq<Byte>> := Encode(FOUR_OCTETS), StraddlingPieces();
    assert p[..1] == [b[..1]] && p[..1][..0] == [];
    assert p[..2][..1] == p[..1] && p[..3][..2] == p[..2] && p[..4][..3] == p[..3] && p[..5] == p && p[..4] == p[..5][..4];
    assert Join(p[..1]) == b[..1];
    assert Join(p[..2]) == b[..5];
    assert Join(p[..3]) == b[..9];
    assert Join(p[..4]) == b[..13];
    assert Join(p) == b;
  }

  lemma StraddlingPosition(i: nat)
    requires 1 <= i <= 4
    ensures !IsCharBoundary(FOUR_OCTETS, TokenStart(StraddlingPieces(), i))
  {
    StraddlingTokenizes();
    forall k: nat | k <= 4 ensures PrefixBytes(FOUR_OCTETS, k) == 4 * k {
      FourOctetPrefix(k);
    }
  }
}
