/** canonical_values.py, `_normalize_key_text`: the text by which values are compared, and when it is blank. */
module KeyTexts {
  import opened Utf8
  import opened Contracts
  import opened Whitespace

  /** The quotes, stops and brackets that surround a value. */
  predicate IsMark(c: char) {
    c in {'"', '\'', '`', '.', ',', ';', ':', '(', ')', '[', ']', '{', '}', '<', '>'}
  }

  /** `text.strip("\"'`.,;:()[]{}<>")` */
  function StripMarks(text: string): (r: string)
    ensures r == [] <==> forall i :: 0 <= i < |text| ==> IsMark(text[i])
    ensures r != [] ==> !IsMark(r[0]) && !IsMark(r[|r| - 1])
    decreases |text|
  {
    if text == [] then []
    else if IsMark(text[0]) then StripMarks(text[1..])
    else if IsMark(text[|text| - 1]) then StripMarks(text[..|text| - 1])
    else text
  }

  /** `re.sub(r"\s+", " ", text)` */
  function SpaceRuns(text: string): string {
    if text == [] then []
    else
      var front, last := text[..|text| - 1], text[|text| - 1];
      if !IsSpace(last) then SpaceRuns(front) + [last]
      else if front != [] && IsSpace(front[|front| - 1]) then SpaceRuns(front)
      else SpaceRuns(front) + " "
  }

  /** `_normalize_key_text`; `compose` is the compatibility normalization with the dashes and quotes
      translated, `casefold` the case folding. */
  function NormalizeKeyText(value: string, compose: string -> string, casefold: string -> string): string {
    var folded := casefold(SpaceRuns(StripMarks(Strip(compose(value)))));
    if folded != [] then folded else value
  }

  lemma {:induction false} SpaceRunsKeepWords(text: string)
    ensures NonBlank(SpaceRuns(text)) <==> !AllSpace(text)
    ensures SpaceRuns(text) == [] <==> text == []
  {
    if text != [] {
      var front, last := text[..|text| - 1], text[|text| - 1];
      SpaceRunsKeepWords(front);
      NonBlankConcat(SpaceRuns(front), last);
      NonBlankConcat(SpaceRuns(front), ' ');
      assert AllSpace(text) <==> AllSpace(front) && IsSpace(last);
    }
  }

  lemma NonBlankConcat(text: string, c: char)
    ensures NonBlank(text + [c]) <==> NonBlank(text) || !IsWhite(c)
  {
    var more := text + [c];
    if !IsWhite(c) {
      assert !IsWhite(more[|text|]);
    }
    if NonBlank(text) {
      var i :| 0 <= i < |text| && !IsWhite(text[i]);
      assert !IsWhite(more[i]);
    }
  }

  /** Case folding neither makes nor removes words. */
  ghost predicate KeepsWords(casefold: string -> string) {
    forall t :: (casefold(t) == [] <==> t == []) && (NonBlank(casefold(t)) <==> NonBlank(t))
  }

  /** The key text of a value that is not blank is blank exactly when there is white space, and nothing
      else, between the marks that surround it. */
  lemma KeyTextIsBlankExactly(value: string, compose: string -> string, casefold: string -> string)
    requires NonBlank(value) && KeepsWords(casefold)
    ensures var inner := StripMarks(Strip(compose(value)));
      !NonBlank(NormalizeKeyText(value, compose, casefold)) <==> inner != [] && AllSpace(inner)
  {
    hide NonBlank, AllSpace;
    SpaceRunsKeepWords(StripMarks(Strip(compose(value))));
  }

  lemma BoxWithoutBrackets()
    ensures Strip("[ ]") == "[ ]" && StripMarks("[ ]") == " " && AllSpace(" ")
  {
    hide AllSpace;
    var box, open, inner := "[ ]", " ]", " ";
    assert box[1..] == open && open[..1] == inner;
    assert IsMark(box[0]) && IsMark(open[1]) && !IsMark(inner[0]);
    assert StripMarks(open) == StripMarks(inner) == inner;
    BlankIsSpace();
  }

  lemma BlankIsSpace()
    ensures AllSpace(" ")
  {
  }

  /** An empty check box is such a value. */
  lemma CheckBoxIsBlank()
    ensures NonBlank("[ ]") && !NonBlank(NormalizeKeyText("[ ]", t => t, t => t))
  {
    hide NormalizeKeyText, Strip, StripMarks;
    assert "[ ]"[0] == '[';
    BoxWithoutBrackets();
    KeyTextIsBlankExactly("[ ]", t => t, t => t);
  }

  /** A single space stands for every run of white space, and nothing else has changed. */
  lemma {:induction false} SpaceRunsExactly(text: string)
    ensures Words(SpaceRuns(text)) == Words(text)
    ensures forall i :: 0 <= i < |SpaceRuns(text)| && IsSpace(SpaceRuns(text)[i]) ==> IsLoneSpace(SpaceRuns(text), i)
    ensures SpaceRuns(text) == [] <==> text == []
    ensures text != [] ==>
      && (IsSpace(SpaceRuns(text)[0]) <==> IsSpace(text[0]))
      && (IsSpace(SpaceRuns(text)[|SpaceRuns(text)| - 1]) <==> IsSpace(text[|text| - 1]))
  {
    hide Words;
    if text == [] {
      NoWords();
    } else {
      var front, last := text[..|text| - 1], text[|text| - 1];
      var before, after := SpaceRuns(front), SpaceRuns(text);
      SpaceRunsExactly(front);
      SpaceRunsKeepWords(front);
      assert text == front + [last] && IsSpace(' ');
      WordsSnoc(front, last);
      WordsSnoc(before, if IsSpace(last) then ' ' else last);
      forall i | 0 <= i < |after| && IsSpace(after[i]) ensures IsLoneSpace(after, i) {
        if i < |before| {
          assert IsLoneSpace(before, i);
        }
      }
    }
  }

  /** The character is the space, and no white space follows it. */
  predicate IsLoneSpace(text: string, i: nat)
    requires i < |text|
  {
    text[i] == ' ' && (i + 1 < |text| ==> !IsSpace(text[i + 1]))
  }

  /** Stripping marks removes marks at both ends, and all of them. */
  lemma {:induction false} StripMarksTrims(text: string) returns (i: nat, j: nat)
    ensures i <= j <= |text| && StripMarks(text) == text[i..j]
    ensures (forall k :: 0 <= k < i ==> IsMark(text[k])) && forall k :: j <= k < |text| ==> IsMark(text[k])
    decreases |text|
  {
    hide IsMark;
    i, j := 0, |text|;
    if text != [] && IsMark(text[0]) {
      i, j := StripMarksTrims(text[1..]);
      MovedRight(text, i, j);
      i, j := i + 1, j + 1;
    } else if text != [] && IsMark(text[|text| - 1]) {
      i, j := StripMarksTrims(text[..|text| - 1]);
      assert text[..|text| - 1][i..j] == text[i..j];
    }
  }

  lemma MovedRight(text: string, i: nat, j: nat)
    requires text != [] && i <= j < |text|
    ensures text[1..][i..j] == text[i + 1..j + 1]
    ensures forall k :: 0 < k < |text| ==> text[k] == text[1..][k - 1]
  {
  }
}
