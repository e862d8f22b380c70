/**
 * Requests in the Redis serialization protocol: the printer of server/reply.cpp and the parser of
 * server/request_parser.cpp.
 */
module Resp {
  import opened Bytes
  import opened Decimal

  const CR: byte := 13
  const LF: byte := 10
  const SPACE: byte := 32
  const DOLLAR: byte := 36
  const STAR: byte := 42
  const CRLF: bytes := [CR, LF]
  const MAX_COMMAND_ELEMENTS: nat := 1024 * 1024

  datatype Command = Command(name: bytes, args: seq<bytes>)

  /** The verdict of the parser; only a complete request carries a command and its length. */
  datatype Parsed = Complete(command: Command, consumed: nat) | Incomplete | Invalid

  datatype ParsedBulk = BulkComplete(value: bytes, consumed: nat) | BulkIncomplete | BulkInvalid

  datatype ParsedElements = ElementsComplete(values: seq<bytes>, end: nat) | ElementsIncomplete | ElementsInvalid

  // ----- printer -----

  function BulkString(s: bytes): bytes {
    [DOLLAR] + Digits(|s|) + CRLF + s + CRLF
  }

  function BulkStrings(values: seq<bytes>): bytes {
    if values == [] then [] else BulkString(values[0]) + BulkStrings(values[1..])
  }

  function ArrayHeader(n: nat): bytes {
    [STAR] + Digits(n) + CRLF
  }

  function Array(values: seq<bytes>): bytes {
    ArrayHeader(|values|) + BulkStrings(values)
  }

  function Elements(c: Command): seq<bytes> {
    [c.name] + c.args
  }

  function Encode(c: Command): bytes {
    Array(Elements(c))
  }

  /** Appends one request to `output`, as the append-only file does. */
  method AppendCommand(name: bytes, args: seq<bytes>, output: bytes) returns (r: bytes)
    ensures r == output + Encode(Command(name, args))
  {
    var all := [name] + args;
    r := output + ArrayHeader(|args| + 1) + BulkString(name);
    assert BulkStrings(all) == BulkString(name) + BulkStrings(args) by { assert all[1..] == args; }
    assert args[0..] == args;
    for i := 0 to |args|
      invariant r + BulkStrings(args[i..]) == output + Encode(Command(name, args))
    {
      assert args[i..][1..] == args[i + 1..];
      r := r + BulkString(args[i]);
    }
  }

  // ----- parser, as functions of the input -----

  /** The position of the first CRLF at or after `start`. */
  function FindCrlf(input: bytes, start: nat): (r: Option<nat>)
    ensures r.Some? ==> start <= r.value && r.value + 2 <= |input|
    decreases |input| - start
  {
    if start + 1 >= |input| then None
    else if input[start] == CR && input[start + 1] == LF then Some(start)
    else FindCrlf(input, start + 1)
  }

  function ParseSize(s: bytes): (r: Option<int>)
    ensures r.Some? ==> 0 <= r.value <= SIZE_MAX
  {
    ValueNonNegative(if AllDigits(s) then s else []);
    if s != [] && AllDigits(s) && Value(s) <= SIZE_MAX then Some(Value(s)) else None
  }

  function ParseBulk(input: bytes, start: nat): (r: ParsedBulk)
    ensures r.BulkComplete? ==> 0 < r.consumed <= |input| - start
  {
    if start >= |input| then BulkIncomplete
    else if input[start] != DOLLAR then BulkInvalid
    else
      var header := FindCrlf(input, start + 1);
      if header.None? then BulkIncomplete
      else
        var length := ParseSize(input[start + 1..header.value]);
        var content := header.value + 2;
        if length.None? || length.value > SIZE_MAX - content - 2 then BulkInvalid
        else
          var end := content + length.value;
          if end + 2 > |input| then BulkIncomplete
          else if input[end] != CR || input[end + 1] != LF then BulkInvalid
          else BulkComplete(input[content..end], end + 2 - start)
  }

  function Prepend(values: seq<bytes>, r: ParsedElements): ParsedElements {
    match r
    case ElementsComplete(more, end) => ElementsComplete(values + more, end)
    case other => other
  }

  /** Reading bulk strings out of one input. */
  function Bulks(input: bytes): nat -> ParsedBulk {
    (start: nat) => ParseBulk(input, start)
  }

  /** `n` consecutive bulk strings, however a single one is read. */
  function ParseElements(read: nat -> ParsedBulk, start: nat, n: nat): (r: ParsedElements)
    ensures r.ElementsComplete? ==> |r.values| == n && start <= r.end
    decreases n
  {
    if n == 0 then ElementsComplete([], start)
    else
      match read(start)
      case BulkIncomplete => ElementsIncomplete
      case BulkInvalid => ElementsInvalid
      case BulkComplete(value, consumed) =>
        Prepend([value], ParseElements(read, start + consumed, n - 1))
  }

  /** Elements end where the last of them ends. */
  lemma {:induction false} ElementsWithin(read: nat -> ParsedBulk, limit: nat, start: nat, n: nat)
    requires start <= limit && forall i: nat :: read(i).BulkComplete? ==> i + read(i).consumed <= limit
    ensures var r := ParseElements(read, start, n); r.ElementsComplete? ==> r.end <= limit
    decreases n
  {
    if n > 0 && read(start).BulkComplete? {
      ElementsWithin(read, limit, start + read(start).consumed, n - 1);
    }
  }

  function ParseArray(input: bytes): (r: Parsed)
    requires input != []
    ensures r.Complete? ==> 0 < r.consumed <= |input|
  {
    var header := FindCrlf(input, 1);
    if header.None? then Incomplete
    else
      var count := ParseSize(input[1..header.value]);
      if count.None? || count.value == 0 || count.value > MAX_COMMAND_ELEMENTS then Invalid
      else
        ElementsWithin(Bulks(input), |input|, header.value + 2, count.value);
        match ParseElements(Bulks(input), header.value + 2, count.value)
        case ElementsIncomplete => Incomplete
        case ElementsInvalid => Invalid
        case ElementsComplete(values, end) =>
          Complete(Command(values[0], values[1..]), end)
  }

  /** The position of the first line feed. */
  function FindNewline(input: bytes, start: nat): (r: Option<nat>)
    ensures r.Some? ==> start <= r.value < |input| && input[r.value] == LF
    decreases |input| - start
  {
    if start >= |input| then None
    else if input[start] == LF then Some(start)
    else FindNewline(input, start + 1)
  }

  /** The first position at or after `start` that holds a space, or the end of the line. */
  function WordEnd(line: bytes, start: nat): (end: nat)
    requires start <= |line|
    ensures start <= end <= |line|
    decreases |line| - start
  {
    if start < |line| && line[start] != SPACE then WordEnd(line, start + 1) else start
  }

  /** The first position at or after `start` that holds no space, or the end of the line. */
  function WordStart(line: bytes, start: nat): (begin: nat)
    requires start <= |line|
    ensures start <= begin <= |line|
    ensures begin < |line| ==> line[begin] != SPACE
    decreases |line| - start
  {
    if start < |line| && line[start] == SPACE then WordStart(line, start + 1) else start
  }

  /** The words of a line, separated by runs of spaces. */
  function Words(line: bytes, start: nat): seq<bytes>
    requires start <= |line|
    decreases |line| - start
  {
    var begin := WordStart(line, start);
    if begin == |line| then []
    else
      var end := WordEnd(line, begin);
      [line[begin..end]] + Words(line, end)
  }

  function InlineLine(input: bytes, newline: nat): bytes
    requires newline < |input|
  {
    if newline > 0 && input[newline - 1] == CR then input[..newline - 1] else input[..newline]
  }

  function ParseInline(input: bytes): (r: Parsed)
    ensures r.Complete? ==> 0 < r.consumed <= |input|
  {
    var newline := FindNewline(input, 0);
    if newline.None? then Incomplete
    else
      var words := Words(InlineLine(input, newline.value), 0);
      Complete(if words == [] then Command([], []) else Command(words[0], words[1..]), newline.value + 1)
  }

  /** A complete request is not empty and lies within the input. */
  function Parse(input: bytes): (r: Parsed)
    ensures r.Complete? ==> 0 < r.consumed <= |input|
  {
    if input == [] then Incomplete
    else if input[0] == STAR then ParseArray(input)
    else ParseInline(input)
  }

  // ----- parser, as the source's loops -----

  lemma PrependStep(values: seq<bytes>, value: bytes, r: ParsedElements)
    ensures Prepend(values, Prepend([value], r)) == Prepend(values + [value], r)
  {
    if r.ElementsComplete? {
      assert values + ([value] + r.values) == (values + [value]) + r.values;
    }
  }

  method ParseElementsLoop(read: nat -> ParsedBulk, start: nat, count: nat) returns (r: ParsedElements)
    ensures r == ParseElements(read, start, count)
  {
    var consumed, values := start, [];
    ghost var all := ParseElements(read, start, count);
    assert Prepend(values, all) == all;
    for index := 0 to count
      invariant all == Prepend(values, ParseElements(read, consumed, count - index))
    {
      var element := read(consumed);
      match element {
        case BulkIncomplete => return ElementsIncomplete;
        case BulkInvalid => return ElementsInvalid;
        case BulkComplete(value, length) =>
          PrependStep(values, value, ParseElements(read, consumed + length, count - index - 1));
          values, consumed := values + [value], consumed + length;
      }
    }
    assert values + [] == values;
    r := ElementsComplete(values, consumed);
  }

  method ParseArrayLoop(input: bytes) returns (r: Parsed)
    requires input != []
    ensures r == ParseArray(input)
  {
    var header := FindCrlf(input, 1);
    if header.None? {
      return Incomplete;
    }
    var count := ParseSize(input[1..header.value]);
    if count.None? || count.value == 0 || count.value > MAX_COMMAND_ELEMENTS {
      return Invalid;
    }
    var elements := ParseElementsLoop(Bulks(input), header.value + 2, count.value);
    match elements {
      case ElementsIncomplete => r := Incomplete;
      case ElementsInvalid => r := Invalid;
      case ElementsComplete(values, end) => r := Complete(Command(values[0], values[1..]), end);
    }
  }

  /** One word, and the words after the spaces that follow it. */
  lemma WordsStep(line: bytes, words: seq<bytes>, begin: nat)
    requires begin < |line| && WordStart(line, begin) == begin
    ensures var end := WordEnd(line, begin); var next := WordStart(line, end);
      begin < end <= next && WordStart(line, next) == next
      && words + Words(line, begin) == (words + [line[begin..end]]) + Words(line, next)
  {
    var end := WordEnd(line, begin);
    assert Words(line, begin) == [line[begin..end]] + Words(line, end);
    assert Words(line, end) == Words(line, WordStart(line, end));
  }

  method SplitWords(line: bytes) returns (words: seq<bytes>)
    ensures words == Words(line, 0)
  {
    words := [];
    var position := WordStart(line, 0);
    ghost var all := Words(line, 0);
    assert all == Words(line, position);
    while position < |line|
      invariant position <= |line| && WordStart(line, position) == position
      invariant all == words + Words(line, position)
      decreases |line| - position
    {
      WordsStep(line, words, position);
      var end := WordEnd(line, position);
      words := words + [line[position..end]];
      position := WordStart(line, end);
    }
  }

  method ParseInlineLoop(input: bytes) returns (r: Parsed)
    ensures r == ParseInline(input)
  {
    var newline := FindNewline(input, 0);
    if newline.None? {
      return Incomplete;
    }
    var words := SplitWords(InlineLine(input, newline.value));
    r := Complete(if words == [] then Command([], []) else Command(words[0], words[1..]), newline.value + 1);
  }

  method ParseRequest(input: bytes) returns (r: Parsed)
    ensures r == Parse(input)
  {
    if input == [] {
      return Incomplete;
    }
    if input[0] == STAR {
      r := ParseArrayLoop(input);
    } else {
      r := ParseInlineLoop(input);
    }
  }

  // ----- what later bytes can change -----

  lemma {:induction false} FindCrlfStable(input: bytes, more: bytes, start: nat)
    requires FindCrlf(input, start).Some?
    ensures FindCrlf(input + more, start) == FindCrlf(input, start)
    decreases |input| - start
  {
    if !(input[start] == CR && input[start + 1] == LF) {
      FindCrlfStable(input, more, start + 1);
    }
  }

  lemma BulkStable(input: bytes, more: bytes, start: nat)
    requires !ParseBulk(input, start).BulkIncomplete?
    ensures ParseBulk(input + more, start) == ParseBulk(input, start)
  {
    if input[start] == DOLLAR {
      FindCrlfStable(input, more, start + 1);
      var header := FindCrlf(input, start + 1).value;
      assert (input + more)[start + 1..header] == input[start + 1..header];
      var length := ParseSize(input[start + 1..header]);
      if length.Some? && length.value <= SIZE_MAX - header - 4 {
        var content, end := header + 2, header + 2 + length.value;
        assert (input + more)[content..end] == input[content..end];
      }
    }
  }

  /** Elements read one way are read the same way by any reader that keeps every verdict. */
  lemma {:induction false} ElementsStable(before: nat -> ParsedBulk, after: nat -> ParsedBulk, start: nat, n: nat)
    requires forall i: nat :: !before(i).BulkIncomplete? ==> after(i) == before(i)
    requires !ParseElements(before, start, n).ElementsIncomplete?
    ensures ParseElements(after, start, n) == ParseElements(before, start, n)
    decreases n
  {
    if n > 0 && before(start).BulkComplete? {
      ElementsStable(before, after, start + before(start).consumed, n - 1);
    }
  }

  lemma {:induction false} FindNewlineStable(input: bytes, more: bytes, start: nat)
    requires FindNewline(input, start).Some?
    ensures FindNewline(input + more, start) == FindNewline(input, start)
    decreases |input| - start
  {
    if input[start] != LF {
      FindNewlineStable(input, more, start + 1);
    }
  }

  lemma BulksStable(input: bytes, more: bytes)
    ensures forall i: nat :: !Bulks(input)(i).BulkIncomplete? ==> Bulks(input + more)(i) == Bulks(input)(i)
  {
    forall i: nat | !Bulks(input)(i).BulkIncomplete? ensures Bulks(input + more)(i) == Bulks(input)(i) {
      BulkStable(input, more, i);
    }
  }

  lemma ArrayStable(input: bytes, more: bytes)
    requires input != [] && !ParseArray(input).Incomplete?
    ensures ParseArray(input + more) == ParseArray(input)
  {
    FindCrlfStable(input, more, 1);
    var header := FindCrlf(input, 1).value;
    assert (input + more)[1..header] == input[1..header];
    var count := ParseSize(input[1..header]);
    if count.Some? && 0 < count.value <= MAX_COMMAND_ELEMENTS {
      BulksStable(input, more);
      ElementsStable(Bulks(input), Bulks(input + more), header + 2, count.value);
    }
  }

  lemma InlineStable(input: bytes, more: bytes)
    requires !ParseInline(input).Incomplete?
    ensures ParseInline(input + more) == ParseInline(input)
  {
    FindNewlineStable(input, more, 0);
    var newline := FindNewline(input, 0).value;
    assert InlineLine(input + more, newline) == InlineLine(input, newline);
  }

  /** A verdict, once reached, is unchanged by any bytes that arrive later. */
  lemma VerdictStable(input: bytes, more: bytes)
    requires !Parse(input).Incomplete?
    ensures Parse(input + more) == Parse(input)
  {
    if input[0] == STAR {
      ArrayStable(input, more);
    } else {
      InlineStable(input, more);
    }
  }

  lemma {:induction false} FindCrlfLocal(input: bytes, start: nat, n: nat)
    requires FindCrlf(input, start).Some? && FindCrlf(input, start).value + 2 <= n <= |input|
    ensures FindCrlf(input[..n], start) == FindCrlf(input, start)
    decreases |input| - start
  {
    if !(input[start] == CR && input[start + 1] == LF) {
      FindCrlfLocal(input, start + 1, n);
    }
  }

  lemma BulkLocal(input: bytes, start: nat, n: nat)
    requires ParseBulk(input, start).BulkComplete? && start + ParseBulk(input, start).consumed <= n <= |input|
    ensures ParseBulk(input[..n], start) == ParseBulk(input, start)
  {
    FindCrlfLocal(input, start + 1, n);
    var header := FindCrlf(input, start + 1).value;
    assert input[..n][start + 1..header] == input[start + 1..header];
    var content, end := header + 2, header + 2 + ParseSize(input[start + 1..header]).value;
    assert input[..n][content..end] == input[content..end];
  }

  /** Elements that end by `n` are read the same way from the first `n` bytes. */
  lemma {:induction false} ElementsLocal(whole: nat -> ParsedBulk, part: nat -> ParsedBulk, n: nat, start: nat,
      count: nat)
    requires forall i: nat :: whole(i).BulkComplete? && i + whole(i).consumed <= n ==> part(i) == whole(i)
    requires ParseElements(whole, start, count).ElementsComplete? && ParseElements(whole, start, count).end <= n
    ensures ParseElements(part, start, count) == ParseElements(whole, start, count)
    decreases count
  {
    if count > 0 {
      ElementsLocal(whole, part, n, start + whole(start).consumed, count - 1);
    }
  }

  lemma {:induction false} FindNewlineLocal(input: bytes, start: nat, n: nat)
    requires FindNewline(input, start).Some? && FindNewline(input, start).value < n <= |input|
    ensures FindNewline(input[..n], start) == FindNewline(input, start)
    decreases |input| - start
  {
    if input[start] != LF {
      FindNewlineLocal(input, start + 1, n);
    }
  }

  lemma BulksLocal(input: bytes, n: nat)
    requires n <= |input|
    ensures forall i: nat :: Bulks(input)(i).BulkComplete? && i + Bulks(input)(i).consumed <= n ==>
      Bulks(input[..n])(i) == Bulks(input)(i)
  {
    forall i: nat | Bulks(input)(i).BulkComplete? && i + Bulks(input)(i).consumed <= n
      ensures Bulks(input[..n])(i) == Bulks(input)(i)
    {
      BulkLocal(input, i, n);
    }
  }

  lemma ArrayLocal(input: bytes, n: nat)
    requires input != [] && ParseArray(input).Complete? && n == ParseArray(input).consumed
    ensures ParseArray(input[..n]) == ParseArray(input)
  {
    var header := FindCrlf(input, 1).value;
    var count := ParseSize(input[1..header]).value;
    FindCrlfLocal(input, 1, n);
    assert input[..n][1..header] == input[1..header];
    BulksLocal(input, n);
    ElementsLocal(Bulks(input), Bulks(input[..n]), n, header + 2, count);
  }

  lemma InlineLocal(input: bytes, n: nat)
    requires ParseInline(input).Complete? && n == ParseInline(input).consumed
    ensures ParseInline(input[..n]) == ParseInline(input)
  {
    FindNewlineLocal(input, 0, n);
    assert InlineLine(input[..n], n - 1) == InlineLine(input, n - 1);
  }

  /** A complete request is decided by the bytes it consumes alone. */
  lemma CompleteIsLocal(input: bytes)
    requires Parse(input).Complete?
    ensures Parse(input[..Parse(input).consumed]) == Parse(input)
  {
    if input[0] == STAR {
      ArrayLocal(input, Parse(input).consumed);
    } else {
      InlineLocal(input, Parse(input).consumed);
    }
  }

  /** Bytes that are still undecided stay undecided until more than their own length is consumed. */
  lemma IncompleteNeedsMore(input: bytes, more: bytes)
    requires Parse(input).Incomplete? && Parse(input + more).Complete?
    ensures Parse(input + more).consumed > |input|
  {
    var n := Parse(input + more).consumed;
    if n <= |input| {
      assert (input + more)[..n] == input[..n] && input[..n] + input[n..] == input;
      CompleteIsLocal(input + more);
      VerdictStable(input[..n], input[n..]);
    }
  }

  // ----- round trip -----

  lemma {:induction false} FindCrlfAt(input: bytes, start: nat, at: nat)
    requires start <= at && at + 2 <= |input| && input[at..at + 2] == CRLF
    requires forall i :: start <= i < at ==> input[i] != CR
    ensures FindCrlf(input, start) == Some(at)
    decreases at - start
  {
    assert input[at] == input[at..at + 2][0] && input[at + 1] == input[at..at + 2][1];
    if start < at {
      FindCrlfAt(input, start + 1, at);
    }
  }

  lemma SizeRoundTrip(n: nat)
    requires n <= SIZE_MAX
    ensures ParseSize(Digits(n)) == Some(n) && forall i :: 0 <= i < |Digits(n)| ==> Digits(n)[i] != CR
  {
    DigitsCanonical(n);
    ValueOfDigits(n);
  }

  /** The input reads `piece` and then `rest` from position `n` to its end. */
  predicate At(input: bytes, n: nat, piece: bytes, rest: bytes) {
    n <= |input| && input[n..] == piece + rest
  }

  /** Reads one known piece off the input at position `n`. */
  lemma Peel(input: bytes, n: nat, piece: bytes, rest: bytes)
    requires At(input, n, piece, rest)
    ensures n + |piece| <= |input| && input[n..n + |piece|] == piece && input[n + |piece|..] == rest
  {
    assert input[n..n + |piece|] == input[n..][..|piece|];
    assert input[n + |piece|..] == input[n..][|piece|..];
  }

  lemma Assoc5(a: bytes, b: bytes, c: bytes, d: bytes, e: bytes, f: bytes)
    ensures (a + b + c + d + e) + f == a + (b + (c + (d + (e + f))))
  {
    assert (a + b + c + d + e) + f == (a + b + c + d) + (e + f);
    assert (a + b + c + d) + (e + f) == (a + b + c) + (d + (e + f));
    assert (a + b + c) + (d + (e + f)) == (a + b) + (c + (d + (e + f)));
  }

  /** The parts of a printed bulk string: its length line, its payload, and a line end. */
  lemma BulkLayout(input: bytes, start: nat, d: bytes, s: bytes, after: bytes)
    requires At(input, start, [DOLLAR] + d + CRLF + s + CRLF, after)
    ensures var header := start + 1 + |d|; var end := header + 2 + |s|;
      && end + 2 <= |input| && input[start] == DOLLAR && input[start + 1..header] == d
      && input[header..header + 2] == CRLF && input[header + 2..end] == s
      && input[end] == CR && input[end + 1] == LF
  {
    Assoc5([DOLLAR], d, CRLF, s, CRLF, after);
    var header := start + 1 + |d|;
    Peel(input, start, [DOLLAR], d + (CRLF + (s + (CRLF + after))));
    Peel(input, start + 1, d, CRLF + (s + (CRLF + after)));
    Peel(input, header, CRLF, s + (CRLF + after));
    Peel(input, header + 2, s, CRLF + after);
    Peel(input, header + 2 + |s|, CRLF, after);
    assert input[start] == input[start..start + 1][0];
    var end := header + 2 + |s|;
    assert input[end] == input[end..end + 2][0] && input[end + 1] == input[end..end + 2][1];
  }

  /** A bulk string whose length line and final line end are where they should be. */
  lemma BulkAt(input: bytes, start: nat, header: nat, end: nat, s: bytes)
    requires start + 1 <= header && header + 2 <= end && end + 2 <= |input| <= SIZE_MAX
    requires input[start] == DOLLAR && FindCrlf(input, start + 1) == Some(header)
    requires ParseSize(input[start + 1..header]) == Some(end - header - 2)
    requires input[header + 2..end] == s && input[end] == CR && input[end + 1] == LF
    ensures ParseBulk(input, start) == BulkComplete(s, end + 2 - start)
  {
  }

  lemma BulkRoundTrip(input: bytes, start: nat, s: bytes, after: bytes)
    requires |input| <= SIZE_MAX && At(input, start, BulkString(s), after)
    ensures ParseBulk(input, start) == BulkComplete(s, |BulkString(s)|)
  {
    var d := Digits(|s|);
    BulkLayout(input, start, d, s, after);
    SizeRoundTrip(|s|);
    HeaderAt(input, start + 1, d);
    BulkAt(input, start, start + 1 + |d|, start + 3 + |d| + |s|, s);
  }

  /** A line end found after digits alone. */
  lemma HeaderAt(input: bytes, start: nat, d: bytes)
    requires start + |d| + 2 <= |input| && input[start..start + |d|] == d
    requires input[start + |d|..start + |d| + 2] == CRLF && forall i :: 0 <= i < |d| ==> d[i] != CR
    ensures FindCrlf(input, start) == Some(start + |d|)
  {
    forall i | start <= i < start + |d| ensures input[i] != CR {
      assert input[i] == input[start..start + |d|][i - start];
    }
    FindCrlfAt(input, start, start + |d|);
  }

  /** A reader that reads every printed bulk string back, wherever it stands in the input. */
  ghost predicate ReadsBulks(read: nat -> ParsedBulk, input: bytes) {
    forall i: nat, s: bytes, after: bytes :: At(input, i, BulkString(s), after) ==> read(i) == BulkComplete(s,
      |BulkString(s)|)
  }

  lemma BulksReadsBulks(input: bytes)
    requires |input| <= SIZE_MAX
    ensures ReadsBulks(Bulks(input), input)
  {
    forall i: nat, s: bytes, after: bytes | At(input, i, BulkString(s), after)
      ensures Bulks(input)(i) == BulkComplete(s, |BulkString(s)|)
    {
      BulkRoundTrip(input, i, s, after);
    }
  }

  lemma {:induction false} ElementsRoundTrip(read: nat -> ParsedBulk, input: bytes, start: nat, values: seq<bytes>,
      after: bytes)
    requires ReadsBulks(read, input) && At(input, start, BulkStrings(values), after)
    ensures ParseElements(read, start, |values|) == ElementsComplete(values, start + |BulkStrings(values)|)
    decreases |values|
  {
    if values != [] {
      var first, rest := BulkString(values[0]), BulkStrings(values[1..]);
      assert (first + rest) + after == first + (rest + after);
      assert At(input, start, first, rest + after);
      Peel(input, start, first, rest + after);
      ElementsRoundTrip(read, input, start + |first|, values[1..], after);
      assert values == [values[0]] + values[1..];
    }
  }

  predicate Parsable(c: Command) {
    |c.args| + 1 <= MAX_COMMAND_ELEMENTS && |Encode(c)| <= SIZE_MAX
  }

  /** The parts of a printed array: its count line, and then its elements. */
  lemma ArrayLayout(input: bytes, d: bytes, rest: bytes)
    requires input == ([STAR] + d + CRLF) + rest && forall i :: 0 <= i < |d| ==> d[i] != CR
    ensures 3 + |d| <= |input| && input[0] == STAR
    ensures FindCrlf(input, 1) == Some(1 + |d|) && input[1..1 + |d|] == d && input[3 + |d|..] == rest
  {
    assert input[0..] == [STAR] + (d + (CRLF + rest));
    Peel(input, 0, [STAR], d + (CRLF + rest));
    Peel(input, 1, d, CRLF + rest);
    Peel(input, 1 + |d|, CRLF, rest);
    HeaderAt(input, 1, d);
  }

  lemma ArrayRoundTrip(values: seq<bytes>, rest: bytes, input: bytes)
    requires values != [] && input == Array(values) + rest && |input| <= SIZE_MAX
    ensures |values| <= MAX_COMMAND_ELEMENTS ==>
      Parse(input) == Complete(Command(values[0], values[1..]), |Array(values)|)
    ensures |values| > MAX_COMMAND_ELEMENTS ==> Parse(input) == Invalid
  {
    var body, d := BulkStrings(values), Digits(|values|);
    ManyElements(values);
    SizeRoundTrip(|values|);
    assert input == ([STAR] + d + CRLF) + (body + rest);
    ArrayLayout(input, d, body + rest);
    BulksReadsBulks(input);
    ElementsRoundTrip(Bulks(input), input, 3 + |d|, values, rest);
  }

  /**
   * A printed command followed by anything parses back to itself exactly when it has no more than the
   * allowed number of elements; a longer one is refused as invalid, although it can be printed.
   */
  lemma CommandRoundTrip(c: Command, rest: bytes)
    requires |Encode(c)| <= SIZE_MAX
    ensures Parsable(c) ==> Parse(Encode(c) + rest) == Complete(c, |Encode(c)|)
    ensures !Parsable(c) ==> Parse(Encode(c) + rest) == Invalid
  {
    assert Encode(c) + [] == Encode(c);
    ArrayRoundTrip(Elements(c), [], Encode(c));
    assert Elements(c)[1..] == c.args;
    VerdictStable(Encode(c), rest);
  }

  lemma {:induction false} ManyElements(values: seq<bytes>)
    ensures |BulkStrings(values)| >= |values|
  {
    if values != [] {
      ManyElements(values[1..]);
    }
  }

  /** Every proper prefix of a printed command is incomplete: never invalid, never a shorter command. */
  lemma ProperPrefixIncomplete(c: Command, n: nat)
    requires Parsable(c) && n < |Encode(c)|
    ensures Parse(Encode(c)[..n]) == Incomplete
  {
    var whole := Encode(c);
    assert whole[..n] + whole[n..] == whole && whole + [] == whole;
    if !Parse(whole[..n]).Incomplete? {
      CommandRoundTrip(c, []);
      VerdictStable(whole[..n], whole[n..]);
    }
  }

  lemma EncodeStarts(c: Command)
    ensures |Encode(c)| > 0 && Encode(c)[0] == STAR
  {
  }
}
