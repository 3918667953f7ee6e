/** Python's `str.isspace`, `str.strip` and `" ".join(text.split())`. */
module Whitespace {
  import opened Utf8

  predicate AllSpace(text: string) {
    forall i :: 0 <= i < |text| ==> IsSpace(text[i])
  }

  /** `text.strip()` */
  function Strip(text: string): (r: string)
    ensures r == [] <==> AllSpace(text)
    ensures r != [] ==> !IsSpace(r[0]) && !IsSpace(r[|r| - 1])
    decreases |text|
  {
    if text == [] then []
    else if IsSpace(text[0]) then Strip(text[1..])
    else if IsSpace(text[|text| - 1]) then Strip(text[..|text| - 1])
    else text
  }

  predicate EndsInWord(text: string) {
    text != [] && !IsSpace(text[|text| - 1])
  }

  /** `text.split()`: a character either continues the word before it or starts a new one. */
  function Words(text: string): (words: seq<string>)
    ensures EndsInWord(text) ==> words != []
  {
    if text == [] then []
    else
      var front, c := text[..|text| - 1], text[|text| - 1];
      if IsSpace(c) then Words(front)
      else if EndsInWord(front) then
        var words := Words(front);
        words[..|words| - 1] + [words[|words| - 1] + [c]]
      else Words(front) + [[c]]
  }

  /** Words are non-empty and hold no white space. */
  lemma {:induction false} WordsAreSolid(text: string)
    ensures forall k :: 0 <= k < |Words(text)| ==> IsSolid(Words(text)[k])
  {
    if text != [] {
      var front := text[..|text| - 1];
      WordsAreSolid(front);
      if EndsInWord(front) {
        assert IsSolid(Words(front)[|Words(front)| - 1]);
      }
    }
  }

  predicate IsSolid(w: string) {
    w != [] && forall i :: 0 <= i < |w| ==> !IsSpace(w[i])
  }

  /** `" ".join(words)` */
  function JoinWithSpace(words: seq<string>): string {
    if words == [] then []
    else if |words| == 1 then words[0]
    else JoinWithSpace(words[..|words| - 1]) + " " + words[|words| - 1]
  }

  /** `" ".join(text.split())` */
  function Collapse(text: string): string {
    JoinWithSpace(Words(text))
  }

  lemma JoinAppendWord(words: seq<string>, w: string)
    ensures JoinWithSpace(words + [w]) == if words == [] then w else JoinWithSpace(words) + " " + w
  {
    assert (words + [w])[..|words|] == words;
  }

  /** One more character either leaves the collapsed text alone, continues its last word or adds a word. */
  lemma CollapseSnoc(front: string, c: char)
    ensures IsSpace(c) ==> Collapse(front + [c]) == Collapse(front)
    ensures !IsSpace(c) && EndsInWord(front) ==> Collapse(front + [c]) == Collapse(front) + [c]
    ensures !IsSpace(c) && !EndsInWord(front) ==>
      Collapse(front + [c]) == if Words(front) == [] then [c] else Collapse(front) + " " + [c]
  {
    var text := front + [c];
    assert text[..|text| - 1] == front;
    if !IsSpace(c) {
      if EndsInWord(front) {
        var words := Words(front);
        var init, last := words[..|words| - 1], words[|words| - 1];
        assert words == init + [last];
        JoinAppendWord(init, last);
        JoinAppendWord(init, last + [c]);
      } else {
        JoinAppendWord(Words(front), [c]);
      }
    }
  }

  lemma {:induction false} CollapseEmpty(text: string)
    ensures Collapse(text) == [] <==> Words(text) == []
    ensures Words(text) == [] <==> AllSpace(text)
  {
    if text != [] {
      var front := text[..|text| - 1];
      CollapseEmpty(front);
      CollapseSnoc(front, text[|text| - 1]);
      assert text == front + [text[|text| - 1]];
    }
  }

  /** Collapsed text neither starts nor ends with white space. */
  lemma {:induction false} CollapseIsTrimmed(text: string)
    ensures Collapse(text) != [] ==> !IsSpace(Collapse(text)[0]) && !IsSpace(Collapse(text)[|Collapse(text)| - 1])
  {
    if text != [] {
      var front := text[..|text| - 1];
      CollapseIsTrimmed(front);
      CollapseEmpty(front);
      CollapseSnoc(front, text[|text| - 1]);
      assert text == front + [text[|text| - 1]];
    }
  }

  /** The words when a character is added. */
  lemma WordsSnoc(front: string, c: char)
    ensures IsSpace(c) ==> Words(front + [c]) == Words(front)
    ensures !IsSpace(c) && !EndsInWord(front) ==> Words(front + [c]) == Words(front) + [[c]]
    ensures !IsSpace(c) && EndsInWord(front) ==>
      Words(front + [c]) == Words(front)[..|Words(front)| - 1] + [Words(front)[|Words(front)| - 1] + [c]]
  {
    assert (front + [c])[..|front|] == front;
  }

  lemma {:induction false} WordAppended(text: string, w: string)
    requires !EndsInWord(text) && IsSolid(w)
    ensures Words(text + w) == Words(text) + [w]
  {
    hide Words;
    var front, c := w[..|w| - 1], w[|w| - 1];
    assert text + w == (text + front) + [c];
    if front == [] {
      assert text + front == text && w == [c];
      WordsSnoc(text, c);
    } else {
      WordAppended(text, front);
      assert EndsInWord(text + front) && w == front + [c];
      WordsSnoc(text + front, c);
    }
  }

  lemma {:induction false} WordsOfJoin(words: seq<string>)
    requires forall k :: 0 <= k < |words| ==> IsSolid(words[k])
    ensures Words(JoinWithSpace(words)) == words
  {
    hide Words;
    if words == [] {
      NoWords();
    } else {
      var front, last := words[..|words| - 1], words[|words| - 1];
      WordsOfJoin(front);
      assert words == front + [last];
      JoinAppendWord(front, last);
      if front == [] {
        NoWords();
        WordAppended([], last);
        assert [] + last == last;
      } else {
        WordsSnoc(JoinWithSpace(front), ' ');
        WordAppended(JoinWithSpace(front) + " ", last);
      }
    }
  }

  lemma NoWords()
    ensures Words([]) == []
  {
  }

  /** Splitting a collapsed text yields its words again. */
  lemma WordsOfCollapse(text: string)
    ensures Words(Collapse(text)) == Words(text)
  {
    hide Words, JoinWithSpace;
    WordsAreSolid(text);
    WordsOfJoin(Words(text));
  }

  /** The text without its outer white space. */
  predicate IsTrimmed(text: string, trimmed: string) {
    exists i: nat, j: nat :: i <= j <= |text| && IsTrimmedAt(text, trimmed, i, j)
  }

  predicate IsTrimmedAt(text: string, trimmed: string, i: nat, j: nat)
    requires i <= j <= |text|
  {
    && trimmed == text[i..j] && AllSpace(text[..i]) && AllSpace(text[j..])
    && (trimmed != [] ==> !IsSpace(trimmed[0]) && !IsSpace(trimmed[|trimmed| - 1]))
  }

  lemma {:induction false} StripTrims(text: string)
    ensures IsTrimmed(text, Strip(text))
    decreases |text|
  {
    hide IsTrimmed;
    if text == [] {
      NothingTrimmed(text);
    } else if IsSpace(text[0]) {
      StripTrims(text[1..]);
      TrimmedInFront(text, Strip(text));
    } else if IsSpace(text[|text| - 1]) {
      StripTrims(text[..|text| - 1]);
      TrimmedBehind(text, Strip(text));
    } else {
      NothingTrimmed(text);
    }
  }

  lemma NothingTrimmed(text: string)
    requires text != [] ==> !IsSpace(text[0]) && !IsSpace(text[|text| - 1])
    ensures IsTrimmed(text, text)
  {
    assert text[..0] == [] && text[|text|..] == [] && text[0..|text|] == text;
    assert IsTrimmedAt(text, text, 0, |text|);
  }

  lemma TrimmedInFront(text: string, trimmed: string)
    requires text != [] && IsSpace(text[0]) && IsTrimmed(text[1..], trimmed)
    ensures IsTrimmed(text, trimmed)
  {
    var rest := text[1..];
    var i: nat, j: nat :| i <= j <= |rest| && IsTrimmedAt(rest, trimmed, i, j);
    assert text[..i + 1] == [text[0]] + rest[..i] && text[j + 1..] == rest[j..] && text[i + 1..j + 1] == rest[i..j];
    assert IsTrimmedAt(text, trimmed, i + 1, j + 1);
  }

  lemma TrimmedBehind(text: string, trimmed: string)
    requires text != [] && IsSpace(text[|text| - 1]) && IsTrimmed(text[..|text| - 1], trimmed)
    ensures IsTrimmed(text, trimmed)
  {
    var rest := text[..|text| - 1];
    var i: nat, j: nat :| i <= j <= |rest| && IsTrimmedAt(rest, trimmed, i, j);
    assert text[..i] == rest[..i] && text[j..] == rest[j..] + [text[|text| - 1]] && text[i..j] == rest[i..j];
    assert IsTrimmedAt(text, trimmed, i, j);
  }

  /** White space in front adds no word. */
  lemma {:induction false} WordsAfterSpace(x: string, text: string)
    requires AllSpace(x)
    ensures Words(x + text) == Words(text)
  {
    hide Words;
    if text == [] {
      assert x + text == x;
      CollapseEmpty(x);
      NoWords();
    } else {
      var front, c := text[..|text| - 1], text[|text| - 1];
      WordsAfterSpace(x, front);
      assert x + text == (x + front) + [c] && text == front + [c];
      WordsSnoc(x + front, c);
      WordsSnoc(front, c);
    }
  }

  lemma {:induction false} WordsBeforeSpace(text: string, y: string)
    requires AllSpace(y)
    ensures Words(text + y) == Words(text)
  {
    hide Words;
    if y == [] {
      assert text + y == text;
    } else {
      var front, c := y[..|y| - 1], y[|y| - 1];
      WordsBeforeSpace(text, front);
      assert text + y == (text + front) + [c];
      WordsSnoc(text + front, c);
    }
  }

  /** Stripping keeps the words. */
  lemma WordsOfStrip(text: string)
    ensures Words(Strip(text)) == Words(text)
  {
    hide Words;
    StripTrims(text);
    var i: nat, j: nat :| i <= j <= |text| && IsTrimmedAt(text, Strip(text), i, j);
    assert text == (text[..i] + text[i..j]) + text[j..];
    WordsBeforeSpace(text[..i] + text[i..j], text[j..]);
    WordsAfterSpace(text[..i], text[i..j]);
  }
}
