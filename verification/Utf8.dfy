/** Text as Unicode scalar values and its UTF-8 form (section 3 of RFC 3629).

    Every offset in the extractor is a pair: a character index into a text and a byte index
    into that text's encoding. `PrefixBytes` is the exact relation between the two. */
module Utf8 {
  type Byte = b: int | 0 <= b < 256

  function EncodeChar(c: char): (bytes: seq<Byte>)
    ensures 1 <= |bytes| <= 4
  {
    var n := c as int;
    if n < 0x80 then [n]
    else if n < 0x800 then [0xC0 + n / 0x40, 0x80 + n % 0x40]
    else if n < 0x1_0000 then [0xE0 + n / 0x1000, 0x80 + n / 0x40 % 0x40, 0x80 + n % 0x40]
    else [0xF0 + n / 0x4_0000, 0x80 + n / 0x1000 % 0x40, 0x80 + n / 0x40 % 0x40, 0x80 + n % 0x40]
  }

  function Encode(text: string): (bytes: seq<Byte>)
    ensures |bytes| >= |text|
  {
    if text == [] then [] else EncodeChar(text[0]) + Encode(text[1..])
  }

  function ByteLength(text: string): nat {
    |Encode(text)|
  }

  /** The byte offset at which character `k` starts. */
  function PrefixBytes(text: string, k: nat): nat
    requires k <= |text|
  {
    |Encode(text[..k])|
  }

  /** `text[start:end]` for non-negative Python slice bounds, which clamp instead of failing. */
  function Slice<T>(s: seq<T>, start: nat, end: nat): seq<T> {
    if start <= end <= |s| then s[start..end]
    else if start <= |s| < end then s[start..]
    else []
  }

  /** The characters for which Python's `str.isspace` holds. */
  predicate IsSpace(c: char) {
    var n := c as int;
    || 0x09 <= n <= 0x0D || 0x1C <= n <= 0x20 || n == 0x85 || n == 0xA0 || n == 0x1680
    || 0x2000 <= n <= 0x200A || n == 0x2028 || n == 0x2029 || n == 0x202F || n == 0x205F || n == 0x3000
  }

  lemma {:induction false} EncodeConcat(a: string, b: string)
    ensures Encode(a + b) == Encode(a) + Encode(b)
  {
    hide EncodeChar;
    if a == [] {
      assert a + b == b;
    } else {
      EncodeConcat(a[1..], b);
      assert (a + b)[1..] == a[1..] + b && (a + b)[0] == a[0];
      Associate(EncodeChar(a[0]), Encode(a[1..]), Encode(b));
    }
  }

  lemma Associate(x: seq<Byte>, y: seq<Byte>, z: seq<Byte>)
    ensures x + (y + z) == x + y + z
  {
  }

  function LowBits(b: Byte, mark: int): int {
    b as int - mark
  }

  /** The form of section 3 of RFC 3629: the number of bytes, their leading bits, and the number that the
      other bits spell. */
  lemma EncodeCharExactly(c: char)
    ensures var n, b := c as int, EncodeChar(c);
      && |b| == (if n < 0x80 then 1 else if n < 0x800 then 2 else if n < 0x1_0000 then 3 else 4)
      && (forall i :: 1 <= i < |b| ==> 0x80 <= b[i] < 0xC0)
      && match |b|
         case 1 => b[0] < 0x80 && n == b[0] as int
         case 2 => 0xC0 <= b[0] < 0xE0 && n == LowBits(b[0], 0xC0) * 0x40 + LowBits(b[1], 0x80)
         case 3 => 0xE0 <= b[0] < 0xF0 && n == LowBits(b[0], 0xE0) * 0x1000 + LowBits(b[1], 0x80) * 0x40 + LowBits(b[2], 0x80)
         case _ =>
           && 0xF0 <= b[0] < 0xF8
           && n == LowBits(b[0], 0xF0) * 0x4_0000 + LowBits(b[1], 0x80) * 0x1000 + LowBits(b[2], 0x80) * 0x40 + LowBits(b[3], 0x80)
  {
    var n := c as int;
    assert n / 0x40 / 0x40 == n / 0x1000 && n / 0x1000 / 0x40 == n / 0x4_0000;
  }

  /** A character slice of a text is the byte slice between the byte offsets of its ends. */
  lemma EncodeSlice(text: string, i: nat, j: nat)
    requires i <= j <= |text|
    ensures PrefixBytes(text, i) + |Encode(text[i..j])| == PrefixBytes(text, j) <= |Encode(text)|
    ensures Encode(text)[PrefixBytes(text, i)..PrefixBytes(text, j)] == Encode(text[i..j])
  {
    assert text[..j] == text[..i] + text[i..j];
    EncodeConcat(text[..i], text[i..j]);
    assert text == text[..j] + text[j..];
    EncodeConcat(text[..j], text[j..]);
  }

  lemma PrefixBytesStep(text: string, k: nat)
    requires k < |text|
    ensures PrefixBytes(text, k) + |EncodeChar(text[k])| == PrefixBytes(text, k + 1)
  {
    EncodeSlice(text, k, k + 1);
    assert text[k..k + 1] == [text[k]];
    assert Encode([text[k]]) == EncodeChar(text[k]);
  }

  lemma PrefixBytesMonotone(text: string, i: nat, j: nat)
    requires i <= j <= |text|
    ensures PrefixBytes(text, i) + (j - i) <= PrefixBytes(text, j)
  {
    EncodeSlice(text, i, j);
  }

  lemma PrefixBytesEnds(text: string)
    ensures PrefixBytes(text, 0) == 0 && PrefixBytes(text, |text|) == |Encode(text)|
  {
    assert text[..|text|] == text;
  }

  /** Byte offsets of a slice, seen from inside the slice. */
  lemma PrefixBytesOfSlice(text: string, i: nat, j: nat, k: nat)
    requires i <= j <= |text| && k <= j - i
    ensures PrefixBytes(text, i) + PrefixBytes(text[i..j], k) == PrefixBytes(text, i + k)
  {
    EncodeSlice(text, i, i + k);
    assert text[i..j][..k] == text[i..i + k];
  }

  predicate IsContinuation(b: Byte) {
    0x80 <= b < 0xC0
  }

  /** The first byte of a character never looks like a later one: UTF-8 synchronises itself. */
  lemma EncodeCharShape(c: char)
    ensures !IsContinuation(EncodeChar(c)[0])
    ensures forall k :: 1 <= k < |EncodeChar(c)| ==> IsContinuation(EncodeChar(c)[k])
  {
  }

  /** No character's encoding is a proper prefix of another's. */
  lemma EncodeCharPrefixFree(c: char, d: char, restC: seq<Byte>, restD: seq<Byte>)
    requires EncodeChar(c) + restC == EncodeChar(d) + restD
    ensures c == d && restC == restD
  {
    var x, y := EncodeChar(c), EncodeChar(d);
    assert (x + restC)[0] == x[0] && (y + restD)[0] == y[0];
    assert |x| == |y|;
    assert x == (x + restC)[..|x|] == (y + restD)[..|y|] == y;
    EncodeCharInjective(c, d);
    assert restC == (x + restC)[|x|..] == (y + restD)[|y|..] == restD;
  }

  function Quad(a: int, b: int, c: int, d: int): int {
    a * 0x4_0000 + b * 0x1000 + c * 0x40 + d
  }

  /** The scalar value that a character's bytes spell. */
  function DecodeChar(bytes: seq<int>): int
    requires 1 <= |bytes| <= 4
  {
    if |bytes| == 1 then bytes[0]
    else if |bytes| == 2 then Quad(0, 0, bytes[0] - 0xC0, bytes[1] - 0x80)
    else if |bytes| == 3 then Quad(0, bytes[0] - 0xE0, bytes[1] - 0x80, bytes[2] - 0x80)
    else Quad(bytes[0] - 0xF0, bytes[1] - 0x80, bytes[2] - 0x80, bytes[3] - 0x80)
  }

  lemma DecodeEncodeChar(c: char)
    ensures DecodeChar(EncodeChar(c)) == c as int
  {
    var n := c as int;
    assert n / 0x40 == n / 0x1000 * 0x40 + n / 0x40 % 0x40;
    assert n / 0x1000 == n / 0x4_0000 * 0x40 + n / 0x1000 % 0x40;
  }

  lemma EncodeCharInjective(c: char, d: char)
    requires EncodeChar(c) == EncodeChar(d)
    ensures c == d
  {
    DecodeEncodeChar(c);
    DecodeEncodeChar(d);
  }

  /** An occurrence that starts with a lead byte starts at or after the end of the first character. */
  lemma OccurrencePastHead(head: seq<Byte>, tail: seq<Byte>, needle: seq<Byte>, at: nat)
    requires needle != [] && !IsContinuation(needle[0])
    requires forall k :: 1 <= k < |head| ==> IsContinuation(head[k])
    requires 0 < at && at + |needle| <= |head + tail| && (head + tail)[at..at + |needle|] == needle
    ensures |head| <= at
    ensures tail[at - |head|..at - |head| + |needle|] == needle
  {
    assert (head + tail)[at] == needle[0];
    assert forall i :: 0 <= i < |head| ==> (head + tail)[i] == head[i];
    assert tail[at - |head|..at - |head| + |needle|] == (head + tail)[at..at + |needle|];
  }

  /** Wherever a non-empty encoded text occurs as bytes, it occurs there as characters. */
  lemma {:induction false} EncodedOccurrence(text: string, needle: string, at: nat)
    requires needle != []
    requires at + |Encode(needle)| <= |Encode(text)|
    requires Encode(text)[at..at + |Encode(needle)|] == Encode(needle)
    ensures exists k: nat ::
      k + |needle| <= |text| && PrefixBytes(text, k) == at && text[k..k + |needle|] == needle
  {
    hide EncodeChar;
    if at == 0 {
      EncodedPrefix(text, needle);
      assert text[0..0 + |needle|] == needle;
      assert PrefixBytes(text, 0) == at;
    } else {
      EncodeCharShape(text[0]);
      EncodeCharShape(needle[0]);
      OccurrencePastHead(EncodeChar(text[0]), Encode(text[1..]), Encode(needle), at);
      var rest := at - |EncodeChar(text[0])|;
      EncodedOccurrence(text[1..], needle, rest);
      var k: nat :| k + |needle| <= |text[1..]| && PrefixBytes(text[1..], k) == rest
        && text[1..][k..k + |needle|] == needle;
      OccurrenceCons(text, needle, k);
    }
  }

  lemma OccurrenceCons(text: string, needle: string, k: nat)
    requires k + 1 + |needle| <= |text| && text[1..][k..k + |needle|] == needle
    ensures text[k + 1..k + 1 + |needle|] == needle
    ensures PrefixBytes(text, k + 1) == |EncodeChar(text[0])| + PrefixBytes(text[1..], k)
  {
    assert text[1..][k..k + |needle|] == text[k + 1..k + 1 + |needle|];
    PrefixBytesCons(text, k);
  }

  lemma PrefixBytesCons(text: string, k: nat)
    requires k < |text|
    ensures PrefixBytes(text, k + 1) == |EncodeChar(text[0])| + PrefixBytes(text[1..], k)
  {
    assert text[..k + 1][1..] == text[1..][..k];
  }

  lemma {:induction false} EncodedPrefix(text: string, needle: string)
    requires Encode(needle) <= Encode(text)
    ensures needle <= text
  {
    hide EncodeChar;
    if needle != [] {
      var head, tail := EncodeChar(needle[0]), Encode(needle[1..]);
      var rest := Encode(text)[|Encode(needle)|..];
      assert Encode(text) == Encode(needle) + rest;
      Associate(head, tail, rest);
      EncodeCharPrefixFree(text[0], needle[0], Encode(text[1..]), tail + rest);
      EncodedPrefix(text[1..], needle[1..]);
      assert text == [text[0]] + text[1..] && needle == [needle[0]] + needle[1..];
    }
  }

  lemma EncodeInjective(a: string, b: string)
    requires Encode(a) == Encode(b)
    ensures a == b
  {
    EncodedPrefix(a, b);
    EncodedPrefix(b, a);
  }
}
