/** Inline requests: what a line of words reads as, and that every such request is a line of words. */
module RespInline {
  import opened Bytes
  import opened Resp

  function Spaces(n: nat): bytes {
    seq(n, i requires 0 <= i < n => ' ' as int)
  }

  /** Not empty, and without a space or the end of a line. */
  predicate IsWord(w: bytes) {
    w != [] && forall i :: 0 <= i < |w| ==> w[i] != ' ' as int && w[i] != '\n' as int
  }

  /** Words with the numbers of spaces around them: any number at either end, at least one between two words. */
  predicate Spaced(words: seq<bytes>, gaps: seq<nat>) {
    && |gaps| == |words| + 1 && (forall i :: 0 <= i < |words| ==> IsWord(words[i]))
    && (forall i :: 0 < i < |words| ==> gaps[i] > 0)
  }

  /** The line. */
  function Laid(words: seq<bytes>, gaps: seq<nat>): bytes
    requires |gaps| == |words| + 1
  {
    Spaces(gaps[0]) + if words == [] then [] else words[0] + Laid(words[1..], gaps[1..])
  }

  function Ending(crlf: bool): bytes {
    Ascii(if crlf then "\r\n" else "\n")
  }

  /** The command some words make; a blank line is the empty command. */
  function CommandOf(words: seq<bytes>): Command {
    if words == [] then Command([], []) else Command(words[0], words[1..])
  }

  // ----- words and spaces in a line -----

  lemma {:induction false} StartAt(line: bytes, start: nat, end: nat)
    requires start <= end <= |line| && (forall i :: start <= i < end ==> line[i] == SPACE)
    requires end == |line| || line[end] != SPACE
    ensures WordStart(line, start) == end
    decreases end - start
  {
    if start < end {
      StartAt(line, start + 1, end);
    }
  }

  lemma {:induction false} EndAt(line: bytes, start: nat, end: nat)
    requires start <= end <= |line| && (forall i :: start <= i < end ==> line[i] != SPACE)
    requires end == |line| || line[end] == SPACE
    ensures WordEnd(line, start) == end
    decreases end - start
  {
    if start < end {
      EndAt(line, start + 1, end);
    }
  }

  lemma {:induction false} NewlineAt(input: bytes, start: nat, at: nat)
    requires start <= at < |input| && input[at] == LF && forall i :: start <= i < at ==> input[i] != LF
    ensures FindNewline(input, start) == Some(at)
    decreases at - start
  {
    if start < at {
      NewlineAt(input, start + 1, at);
    }
  }

  lemma Pieces(a: bytes, b: bytes, c: bytes, d: bytes)
    ensures var all, i, j := a + (b + (c + d)), |a| + |b|, |a| + |b| + |c|;
      && all == (a + b + c) + d && all[|a|..i] == b && all[i..j] == c && all[j..] == d
  {
  }

  /** A run of spaces, then a word, in the middle of a line. */
  lemma OneWord(line: bytes, start: nat, begin: nat, end: nat)
    requires start <= begin < end <= |line| && line[start..begin] == Spaces(begin - start)
    requires IsWord(line[begin..end]) && (end == |line| || line[end] == SPACE)
    ensures WordStart(line, start) == begin && WordEnd(line, begin) == end
  {
    assert forall i :: start <= i < begin ==> line[i] == line[start..begin][i - start];
    assert forall i :: begin <= i < end ==> line[i] == line[begin..end][i - begin];
    StartAt(line, start, begin);
    EndAt(line, begin, end);
  }

  lemma SpacedTail(words: seq<bytes>, gaps: seq<nat>)
    requires Spaced(words, gaps) && words != []
    ensures Spaced(words[1..], gaps[1..])
    ensures var after := Laid(words[1..], gaps[1..]); after == [] || after[0] == SPACE
  {
  }

  /** The words of a line are those laid out in it. */
  lemma {:induction false} WordsOfLaid(before: bytes, words: seq<bytes>, gaps: seq<nat>)
    requires Spaced(words, gaps)
    ensures Words(before + Laid(words, gaps), |before|) == words
    decreases |words|
  {
    var line := before + Laid(words, gaps);
    if words == [] {
      StartAt(line, |before|, |line|);
    } else {
      var after := Laid(words[1..], gaps[1..]);
      SpacedTail(words, gaps);
      var begin := |before| + gaps[0];
      Pieces(before, Spaces(gaps[0]), words[0], after);
      assert after != [] ==> line[begin + |words[0]|] == after[0];
      OneWord(line, |before|, begin, begin + |words[0]|);
      WordsOfLaid(before + Spaces(gaps[0]) + words[0], words[1..], gaps[1..]);
    }
  }

  lemma {:induction false} NoNewline(words: seq<bytes>, gaps: seq<nat>)
    requires Spaced(words, gaps)
    ensures LF !in Laid(words, gaps)
    decreases |words|
  {
    if words != [] {
      SpacedTail(words, gaps);
      NoNewline(words[1..], gaps[1..]);
      assert LF !in words[0];
    }
  }

  // ----- there and back -----

  /** A line can be read back: it does not look like an array, and its own last byte is not taken for its end. */
  predicate ReadsBack(line: bytes, crlf: bool) {
    (line != [] ==> line[0] != '*' as int) && (crlf || line == [] || line[|line| - 1] != '\r' as int)
  }

  lemma LineEnds(line: bytes, crlf: bool, more: bytes)
    requires LF !in line && ReadsBack(line, crlf)
    ensures var input, newline := line + Ending(crlf) + more, |line| + |Ending(crlf)| - 1;
      FindNewline(input, 0) == Some(newline) && InlineLine(input, newline) == line && input[0] != STAR
  {
    var input, newline := line + Ending(crlf) + more, |line| + |Ending(crlf)| - 1;
    assert forall i :: 0 <= i < |line| ==> input[i] == line[i];
    assert input[newline] == LF && (crlf ==> input[|line|] == CR);
    NewlineAt(input, 0, newline);
    assert input[..|line|] == line;
  }

  lemma ParseLine(line: bytes, crlf: bool, more: bytes)
    requires LF !in line && ReadsBack(line, crlf)
    ensures Parse(line + Ending(crlf) + more) == Complete(CommandOf(Words(line, 0)), |line| + |Ending(crlf)|)
  {
    LineEnds(line, crlf, more);
  }

  /**
   * Words laid out on a line with any spaces, followed by CRLF or LF and anything else, are read back as the
   * command they make, and exactly the line is consumed.
   */
  lemma InlineRoundTrip(words: seq<bytes>, gaps: seq<nat>, crlf: bool, more: bytes)
    requires Spaced(words, gaps) && ReadsBack(Laid(words, gaps), crlf)
    ensures Parse(Laid(words, gaps) + Ending(crlf) + more)
      == Complete(CommandOf(words), |Laid(words, gaps)| + |Ending(crlf)|)
  {
    var line := Laid(words, gaps);
    NoNewline(words, gaps);
    ParseLine(line, crlf, more);
    WordsOfLaid([], words, gaps);
    assert [] + line == line;
  }

  // ----- every inline request is a line of words -----

  lemma {:induction false} SpacesOf(line: bytes, start: nat)
    requires start <= |line|
    ensures line[start..WordStart(line, start)] == Spaces(WordStart(line, start) - start)
    decreases |line| - start
  {
    if start < |line| && line[start] == SPACE {
      SpacesOf(line, start + 1);
      assert line[start..WordStart(line, start)] == [SPACE] + line[start + 1..WordStart(line, start)];
    }
  }

  lemma {:induction false} WordOf(line: bytes, start: nat)
    requires start <= |line|
    ensures SPACE !in line[start..WordEnd(line, start)]
    ensures WordEnd(line, start) < |line| ==> line[WordEnd(line, start)] == SPACE
    decreases |line| - start
  {
    if start < |line| && line[start] != SPACE {
      WordOf(line, start + 1);
      assert line[start..WordEnd(line, start)] == [line[start]] + line[start + 1..WordEnd(line, start)];
    }
  }

  /** Every line is laid out of its words. */
  lemma {:induction false} LineIsLaid(line: bytes, start: nat) returns (gaps: seq<nat>)
    requires start <= |line| && LF !in line
    ensures Spaced(Words(line, start), gaps) && line[start..] == Laid(Words(line, start), gaps)
    ensures Words(line, start) != [] && start < |line| && line[start] == SPACE ==> gaps[0] > 0
    decreases |line| - start
  {
    var begin := WordStart(line, start);
    SpacesOf(line, start);
    if begin == |line| {
      gaps := [begin - start];
    } else {
      var end := WordEnd(line, begin);
      WordOf(line, begin);
      var rest := LineIsLaid(line, end);
      gaps := [begin - start] + rest;
      LaidMore(line, start, begin, end, Words(line, end), rest);
    }
  }

  lemma LaidMore(line: bytes, start: nat, begin: nat, end: nat, words: seq<bytes>, gaps: seq<nat>)
    requires start <= begin < end <= |line| && line[start..begin] == Spaces(begin - start) && LF !in line
    requires SPACE !in line[begin..end] && (words != [] ==> gaps != [] && gaps[0] > 0)
    requires Spaced(words, gaps) && line[end..] == Laid(words, gaps)
    ensures Spaced([line[begin..end]] + words, [begin - start] + gaps)
    ensures line[start..] == Laid([line[begin..end]] + words, [begin - start] + gaps)
  {
    var w := line[begin..end];
    assert forall i :: 0 <= i < |w| ==> w[i] in w && w[i] == line[begin + i];
    assert ([w] + words)[1..] == words && ([begin - start] + gaps)[1..] == gaps;
    assert line[start..] == line[start..begin] + (w + line[end..]);
  }

  /** The first line of an input, and how it ends. */
  lemma FirstLine(input: bytes) returns (line: bytes, crlf: bool)
    requires LF in input && input[0] != STAR
    ensures LF !in line && ReadsBack(line, crlf) && line + Ending(crlf) <= input
  {
    FirstNewline(input, 0);
    assert input[0..] == input;
    var newline := FindNewline(input, 0).value;
    line := InlineLine(input, newline);
    crlf := newline > 0 && input[newline - 1] == CR;
    assert input[..newline + 1] == line + Ending(crlf);
    assert forall i :: 0 <= i < |line| ==> line[i] == input[0..newline][i];
  }

  /** The input begins with a line of these words, and is read as the command they make. */
  predicate ReadAs(input: bytes, words: seq<bytes>, gaps: seq<nat>, crlf: bool) {
    && Spaced(words, gaps) && ReadsBack(Laid(words, gaps), crlf) && Laid(words, gaps) + Ending(crlf) <= input
    && Parse(input) == Complete(CommandOf(words), |Laid(words, gaps)| + |Ending(crlf)|)
  }

  /** A request that is not an array is complete exactly when it has a line, and is then the words of that line. */
  lemma InlineExact(input: bytes) returns (words: seq<bytes>, gaps: seq<nat>, crlf: bool)
    requires input != [] && input[0] != '*' as int
    ensures if '\n' as int in input then ReadAs(input, words, gaps, crlf) else Parse(input) == Incomplete
  {
    words, gaps, crlf := [], [0], false;
    if LF in input {
      var line;
      line, crlf := FirstLine(input);
      words := Words(line, 0);
      gaps := LineIsLaid(line, 0);
      assert line[0..] == line;
      RestOfInput(input, line + Ending(crlf));
      ParseLine(line, crlf, input[|line + Ending(crlf)|..]);
    } else {
      FirstNewline(input, 0);
      assert input[0..] == input;
    }
  }

  lemma RestOfInput(input: bytes, front: bytes)
    requires front <= input
    ensures front + input[|front|..] == input
  {
  }

  lemma {:induction false} FirstNewline(input: bytes, start: nat)
    requires start <= |input|
    ensures FindNewline(input, start).None? <==> LF !in input[start..]
    ensures FindNewline(input, start).Some? ==> LF !in input[start..FindNewline(input, start).value]
    decreases |input| - start
  {
    if start < |input| && input[start] != LF {
      FirstNewline(input, start + 1);
      assert input[start..] == [input[start]] + input[start + 1..];
      var newline := FindNewline(input, start);
      assert newline.Some? ==> input[start..newline.value] == [input[start]] + input[start + 1..newline.value];
    }
  }
}
