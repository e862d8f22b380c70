/** Array requests: which inputs are complete, which are unfinished, and which are refused. */
module RespArray {
  import opened Bytes
  import opened Decimal
  import opened Resp

  // ----- the grammar -----

  /** The bytes of `part` are in the input at `start`. */
  predicate At(input: bytes, start: nat, part: bytes) {
    start + |part| <= |input| && input[start..start + |part|] == part
  }

  /** Decimal digits, with any zeros in front, that denote `n`. */
  predicate SizeText(h: bytes, n: int) {
    h != [] && (forall i :: 0 <= i < |h| ==> '0' as int <= h[i] <= '9' as int) && Value(h) == n
  }

  /** A marker and a size. */
  function Header(marker: string, h: bytes): bytes {
    Ascii(marker) + h + Ascii("\r\n")
  }

  /** A value, with its size written as `h`. */
  function Bulk(h: bytes, v: bytes): bytes {
    Header("$", h) + v + Ascii("\r\n")
  }

  predicate BulkAt(input: bytes, start: nat, h: bytes, v: bytes) {
    SizeText(h, |v|) && At(input, start, Bulk(h, v))
  }

  /** A value, with its size before it, from `start` to `end`. */
  ghost predicate ValueAt(input: bytes, start: nat, end: nat, v: bytes) {
    exists h: bytes :: BulkAt(input, start, h, v) && end == start + |h| + |v| + 5
  }

  /** Values in a row. */
  ghost predicate Row(one: (nat, nat, bytes) -> bool, start: nat, end: nat, vs: seq<bytes>)
    decreases |vs|
  {
    if vs == [] then start == end else exists mid: nat :: one(start, mid, vs[0]) && Row(one, mid, end, vs[1..])
  }

  ghost function Values(input: bytes): (nat, nat, bytes) -> bool {
    (start: nat, end: nat, v: bytes) => ValueAt(input, start, end, v)
  }

  predicate HeaderAt(input: bytes, h: bytes, n: int) {
    SizeText(h, n) && 0 < n <= 1024 * 1024 && At(input, 0, Header("*", h))
  }

  /** The first `end` bytes are an array of these values. */
  ghost predicate ArrayTo(input: bytes, end: nat, vs: seq<bytes>) {
    exists h: bytes :: HeaderAt(input, h, |vs|) && Row(Values(input), |h| + 3, end, vs)
  }

  // ----- what an unfinished request looks like -----

  predicate CrlfAt(t: bytes, i: nat) {
    i + 1 < |t| && t[i] == '\r' as int && t[i + 1] == '\n' as int
  }

  predicate NoCrlf(t: bytes, start: nat, end: nat) {
    forall i :: start <= i < end ==> !CrlfAt(t, i)
  }

  /** A size that a string has room for in memory. */
  predicate Addressable(content: nat, n: int) {
    0 <= n <= SIZE_MAX - content - 2
  }

  /** The value announced at `start` does not end within the input. */
  predicate CutValue(input: bytes, start: nat, h: bytes, n: int) {
    SizeText(h, n) && At(input, start, Header("$", h)) && Addressable(start + |h| + 3, n)
      && start + |h| + 3 + n + 2 > |input|
  }

  /** The input ends within the value at `start`, or before it, or before the end of its size. */
  ghost predicate PartBulk(input: bytes, start: nat) {
    || start >= |input|
    || (input[start] == '$' as int && (NoCrlf(input, start + 1, |input|)
        || exists h: bytes, n: int :: CutValue(input, start, h, n)))
  }

  /** Some whole values, and then one the input ends within, of `n` values. */
  ghost predicate PartRow(one: (nat, nat, bytes) -> bool, part: nat -> bool, start: nat, n: nat)
    decreases n
  {
    n > 0 && (part(start) || exists mid: nat, v: bytes :: one(start, mid, v) && PartRow(one, part, mid, n - 1))
  }

  ghost function Parts(input: bytes): nat -> bool {
    (start: nat) => PartBulk(input, start)
  }

  ghost predicate PartArray(input: bytes) {
    || NoCrlf(input, 1, |input|)
    || exists h: bytes, n: nat :: HeaderAt(input, h, n) && PartRow(Values(input), Parts(input), |h| + 3, n)
  }

  // ----- pieces of the input -----

  lemma AtConcat(input: bytes, start: nat, a: bytes, b: bytes)
    ensures At(input, start, a + b) <==> At(input, start, a) && At(input, start + |a|, b)
  {
    if start + |a| + |b| <= |input| {
      var all := input[start..start + |a + b|];
      assert all == input[start..start + |a|] + input[start + |a|..start + |a| + |b|];
      if all == a + b {
        assert all[..|a|] == a && all[|a|..] == b;
      }
    }
  }

  lemma AtCrlf(input: bytes, start: nat)
    ensures At(input, start, Ascii("\r\n")) <==> CrlfAt(input, start)
  {
    assert Ascii("\r\n") == [CR, LF];
    if start + 2 <= |input| {
      var two := input[start..start + 2];
      assert two == [two[0], two[1]];
    }
  }

  lemma AtMarker(input: bytes, start: nat, marker: string)
    requires |marker| == 1
    ensures At(input, start, Ascii(marker)) <==> start < |input| && input[start] == marker[0] as int % 256
  {
    if start < |input| {
      assert input[start..start + 1] == [input[start]];
    }
  }

  lemma AtHeader(input: bytes, start: nat, marker: string, h: bytes)
    requires |marker| == 1
    ensures At(input, start, Header(marker, h)) <==>
      start < |input| && input[start] == marker[0] as int % 256 && At(input, start + 1, h) && CrlfAt(input, start + 1 + |h|)
  {
    AtConcat(input, start, Ascii(marker) + h, Ascii("\r\n"));
    AtConcat(input, start, Ascii(marker), h);
    AtMarker(input, start, marker);
    AtCrlf(input, start + 1 + |h|);
  }

  lemma AtBulk(input: bytes, start: nat, h: bytes, v: bytes)
    ensures At(input, start, Bulk(h, v)) <==>
      At(input, start, Header("$", h)) && At(input, start + |h| + 3, v) && CrlfAt(input, start + |h| + 3 + |v|)
  {
    AtConcat(input, start, Header("$", h) + v, Ascii("\r\n"));
    AtConcat(input, start, Header("$", h), v);
    AtCrlf(input, start + |h| + 3 + |v|);
  }

  // ----- lines -----

  lemma {:induction false} FindCrlfIs(input: bytes, start: nat)
    ensures var r := FindCrlf(input, start);
      if r.Some? then CrlfAt(input, r.value) && NoCrlf(input, start, r.value) else NoCrlf(input, start, |input|)
    decreases |input| - start
  {
    if start + 1 < |input| && !CrlfAt(input, start) {
      FindCrlfIs(input, start + 1);
    }
  }

  lemma {:induction false} CrlfFirst(input: bytes, start: nat, at: nat)
    requires start <= at && CrlfAt(input, at) && NoCrlf(input, start, at)
    ensures FindCrlf(input, start) == Some(at)
    decreases at - start
  {
    if start < at {
      assert !CrlfAt(input, start);
      CrlfFirst(input, start + 1, at);
    }
  }

  lemma SizeLine(input: bytes, start: nat, h: bytes, n: int)
    requires SizeText(h, n) && At(input, start, h) && CrlfAt(input, start + |h|)
    ensures FindCrlf(input, start) == Some(start + |h|)
    ensures 0 <= n && ParseSize(input[start..start + |h|]) == if n <= SIZE_MAX then Some(n) else None
  {
    forall i | start <= i < start + |h| ensures !CrlfAt(input, i) {
      assert input[i] == h[i - start];
    }
    CrlfFirst(input, start, start + |h|);
    ValueNonNegative(h);
  }

  /** A size the parser accepts. */
  lemma SizeRead(input: bytes, start: nat, at: nat) returns (h: bytes)
    requires FindCrlf(input, start) == Some(at) && ParseSize(input[start..at]).Some?
    ensures h == input[start..at] && SizeText(h, ParseSize(h).value)
    ensures At(input, start, h) && CrlfAt(input, start + |h|)
  {
    h := input[start..at];
    FindCrlfIs(input, start);
  }

  // ----- one value -----

  lemma ReadsAt(input: bytes, start: nat, header: nat, v: bytes)
    requires start < |input| && input[start] == DOLLAR && FindCrlf(input, start + 1) == Some(header)
    requires ParseSize(input[start + 1..header]) == Some(|v|) && |input| <= SIZE_MAX
    requires At(input, header + 2, v) && CrlfAt(input, header + 2 + |v|)
    ensures ParseBulk(input, start) == BulkComplete(v, header + 2 + |v| + 2 - start)
  {
  }

  lemma BulkReads(input: bytes, start: nat, h: bytes, v: bytes)
    requires BulkAt(input, start, h, v) && |input| <= SIZE_MAX
    ensures ParseBulk(input, start) == BulkComplete(v, |h| + |v| + 5)
  {
    AtBulk(input, start, h, v);
    AtHeader(input, start, "$", h);
    SizeLine(input, start + 1, h, |v|);
    ReadsAt(input, start, start + 1 + |h|, v);
  }

  /** A value the parser accepts. */
  lemma ReadAt(input: bytes, start: nat) returns (header: nat, v: bytes)
    requires ParseBulk(input, start).BulkComplete?
    ensures input[start] == DOLLAR && FindCrlf(input, start + 1) == Some(header)
    ensures ParseSize(input[start + 1..header]) == Some(|v|)
    ensures At(input, header + 2, v) && CrlfAt(input, header + 2 + |v|)
    ensures ParseBulk(input, start) == BulkComplete(v, header + 2 + |v| + 2 - start)
  {
    header, v := FindCrlf(input, start + 1).value, ParseBulk(input, start).value;
  }

  lemma HeadRead(input: bytes, start: nat, header: nat, n: int) returns (h: bytes)
    requires start < |input| && input[start] == DOLLAR && FindCrlf(input, start + 1) == Some(header)
    requires ParseSize(input[start + 1..header]) == Some(n)
    ensures SizeText(h, n) && At(input, start, Header("$", h)) && header == start + 1 + |h|
  {
    h := SizeRead(input, start + 1, header);
    AtHeader(input, start, "$", h);
  }

  lemma BulkRead(input: bytes, start: nat)
    requires ParseBulk(input, start).BulkComplete?
    ensures var r := ParseBulk(input, start); ValueAt(input, start, start + r.consumed, r.value)
  {
    var header, v := ReadAt(input, start);
    var h := HeadRead(input, start, header, |v|);
    AtBulk(input, start, h, v);
    assert BulkAt(input, start, h, v);
  }

  lemma CutRead(input: bytes, start: nat)
    requires start < |input| && ParseBulk(input, start).BulkIncomplete?
    ensures PartBulk(input, start)
  {
    FindCrlfIs(input, start + 1);
    if FindCrlf(input, start + 1).Some? {
      var h := SizeRead(input, start + 1, FindCrlf(input, start + 1).value);
      AtHeader(input, start, "$", h);
      assert CutValue(input, start, h, ParseSize(h).value);
    }
  }

  lemma CutReads(input: bytes, start: nat, h: bytes, n: int)
    requires CutValue(input, start, h, n)
    ensures ParseBulk(input, start).BulkIncomplete?
  {
    AtHeader(input, start, "$", h);
    SizeLine(input, start + 1, h, n);
  }

  lemma UnendedReads(input: bytes, start: nat)
    requires start < |input| && input[start] == DOLLAR && NoCrlf(input, start + 1, |input|)
    ensures ParseBulk(input, start).BulkIncomplete?
  {
    FindCrlfIs(input, start + 1);
  }

  lemma PartBulkExact(input: bytes, start: nat)
    ensures ParseBulk(input, start).BulkIncomplete? <==> PartBulk(input, start)
  {
    if start < |input| {
      if ParseBulk(input, start).BulkIncomplete? {
        CutRead(input, start);
      }
      if PartBulk(input, start) {
        if NoCrlf(input, start + 1, |input|) {
          UnendedReads(input, start);
        } else {
          var h: bytes, n: int :| CutValue(input, start, h, n);
          CutReads(input, start, h, n);
        }
      }
    }
  }

  // ----- values in a row, however a single one is read -----

  /** What is read is there. */
  ghost predicate ReadsRight(read: nat -> ParsedBulk, one: (nat, nat, bytes) -> bool) {
    forall i: nat :: read(i).BulkComplete? ==> one(i, i + read(i).consumed, read(i).value)
  }

  /** What is there is read. */
  ghost predicate ReadsAll(read: nat -> ParsedBulk, one: (nat, nat, bytes) -> bool) {
    forall i: nat, end: nat, v: bytes :: one(i, end, v) ==> i < end && read(i) == BulkComplete(v, end - i)
  }

  ghost predicate ReadsParts(read: nat -> ParsedBulk, part: nat -> bool) {
    forall i: nat :: read(i).BulkIncomplete? <==> part(i)
  }

  lemma BulksReadRight(input: bytes)
    ensures ReadsRight(Bulks(input), Values(input)) && ReadsParts(Bulks(input), Parts(input))
  {
    forall i: nat | ParseBulk(input, i).BulkComplete?
      ensures ValueAt(input, i, i + ParseBulk(input, i).consumed, ParseBulk(input, i).value)
    {
      BulkRead(input, i);
    }
    forall i: nat ensures ParseBulk(input, i).BulkIncomplete? <==> PartBulk(input, i) {
      PartBulkExact(input, i);
    }
  }

  lemma ValueReads(input: bytes, start: nat, end: nat, v: bytes)
    requires ValueAt(input, start, end, v) && |input| <= SIZE_MAX
    ensures start < end && ParseBulk(input, start) == BulkComplete(v, end - start)
  {
    var h: bytes :| BulkAt(input, start, h, v) && end == start + |h| + |v| + 5;
    BulkReads(input, start, h, v);
  }

  lemma BulksReadAll(input: bytes)
    requires |input| <= SIZE_MAX
    ensures ReadsAll(Bulks(input), Values(input))
  {
    forall i: nat, end: nat, v: bytes | ValueAt(input, i, end, v)
      ensures i < end && ParseBulk(input, i) == BulkComplete(v, end - i)
    {
      ValueReads(input, i, end, v);
    }
  }

  lemma {:induction false} RowRead(read: nat -> ParsedBulk, one: (nat, nat, bytes) -> bool, start: nat, n: nat)
    requires ReadsRight(read, one) && ParseElements(read, start, n).ElementsComplete?
    ensures var r := ParseElements(read, start, n); Row(one, start, r.end, r.values)
    decreases n
  {
    if n > 0 {
      var first := read(start);
      RowRead(read, one, start + first.consumed, n - 1);
      var r, rest := ParseElements(read, start, n), ParseElements(read, start + first.consumed, n - 1);
      assert r.values[0] == first.value && r.values[1..] == rest.values;
      assert one(start, start + first.consumed, r.values[0]);
    }
  }

  lemma {:induction false} RowReads(read: nat -> ParsedBulk, one: (nat, nat, bytes) -> bool, start: nat, end: nat,
      vs: seq<bytes>)
    requires ReadsAll(read, one) && Row(one, start, end, vs)
    ensures ParseElements(read, start, |vs|) == ElementsComplete(vs, end)
    decreases |vs|
  {
    if vs != [] {
      var mid: nat :| one(start, mid, vs[0]) && Row(one, mid, end, vs[1..]);
      RowReads(read, one, mid, end, vs[1..]);
    }
  }

  lemma {:induction false} PartRowRead(read: nat -> ParsedBulk, one: (nat, nat, bytes) -> bool, part: nat -> bool,
      start: nat, n: nat)
    requires ReadsRight(read, one) && ReadsParts(read, part) && ParseElements(read, start, n).ElementsIncomplete?
    ensures PartRow(one, part, start, n)
    decreases n
  {
    var first := read(start);
    if first.BulkComplete? {
      PartRowRead(read, one, part, start + first.consumed, n - 1);
      assert one(start, start + first.consumed, first.value);
    }
  }

  lemma {:induction false} PartRowReads(read: nat -> ParsedBulk, one: (nat, nat, bytes) -> bool, part: nat -> bool,
      start: nat, n: nat)
    requires ReadsAll(read, one) && ReadsParts(read, part) && PartRow(one, part, start, n)
    ensures ParseElements(read, start, n).ElementsIncomplete?
    decreases n
  {
    if !part(start) {
      var mid: nat, v: bytes :| one(start, mid, v) && PartRow(one, part, mid, n - 1);
      PartRowReads(read, one, part, mid, n - 1);
    }
  }

  // ----- whole requests -----

  lemma HeaderReads(input: bytes, h: bytes, n: int)
    requires HeaderAt(input, h, n)
    ensures FindCrlf(input, 1) == Some(1 + |h|) && ParseSize(input[1..1 + |h|]) == Some(n)
  {
    AtHeader(input, 0, "*", h);
    SizeLine(input, 1, h, n);
  }

  lemma HeaderRead(input: bytes) returns (h: bytes, n: int)
    requires input != [] && input[0] == STAR && !ParseArray(input).Invalid? && FindCrlf(input, 1).Some?
    ensures HeaderAt(input, h, n) && FindCrlf(input, 1) == Some(1 + |h|) && ParseSize(input[1..1 + |h|]) == Some(n)
  {
    h := SizeRead(input, 1, FindCrlf(input, 1).value);
    n := ParseSize(h).value;
    AtHeader(input, 0, "*", h);
  }

  /** What the elements make of a request with a good header. */
  function Verdict(r: ParsedElements): Parsed {
    match r
    case ElementsIncomplete => Incomplete
    case ElementsInvalid => Invalid
    case ElementsComplete(vs, end) => if vs == [] then Invalid else Complete(Command(vs[0], vs[1..]), end)
  }

  lemma AfterHeader(input: bytes, h: bytes, n: int)
    requires input != [] && input[0] == STAR && HeaderAt(input, h, n)
    ensures Parse(input) == Verdict(ParseElements(Bulks(input), |h| + 3, n))
  {
    HeaderReads(input, h, n);
  }

  /** Every array of values, however its sizes are written, is read as the command they make. */
  lemma ArrayReads(input: bytes, end: nat, vs: seq<bytes>)
    requires ArrayTo(input, end, vs) && |input| <= SIZE_MAX
    ensures Parse(input) == Complete(Command(vs[0], vs[1..]), end)
  {
    var h: bytes :| HeaderAt(input, h, |vs|) && Row(Values(input), |h| + 3, end, vs);
    AtHeader(input, 0, "*", h);
    AfterHeader(input, h, |vs|);
    BulksReadAll(input);
    RowReads(Bulks(input), Values(input), |h| + 3, end, vs);
  }

  /** And every array request that is read is one. */
  lemma ArrayRead(input: bytes)
    requires Parse(input).Complete? && input[0] == '*' as int
    ensures ArrayTo(input, Parse(input).consumed, Elements(Parse(input).command))
  {
    var h, n := HeaderRead(input);
    AfterHeader(input, h, n);
    BulksReadRight(input);
    RowRead(Bulks(input), Values(input), |h| + 3, n);
    var vs := ParseElements(Bulks(input), |h| + 3, n).values;
    assert Elements(Parse(input).command) == vs;
  }

  lemma PartArrayRead(input: bytes)
    requires input != [] && input[0] == STAR && Parse(input) == Incomplete && FindCrlf(input, 1).Some?
    ensures PartArray(input)
  {
    var h, n := HeaderRead(input);
    AfterHeader(input, h, n);
    BulksReadRight(input);
    PartRowRead(Bulks(input), Values(input), Parts(input), |h| + 3, n);
  }

  lemma PartArrayReads(input: bytes, h: bytes, n: nat)
    requires input != [] && input[0] == STAR && |input| <= SIZE_MAX
    requires HeaderAt(input, h, n) && PartRow(Values(input), Parts(input), |h| + 3, n)
    ensures Parse(input) == Incomplete
  {
    AfterHeader(input, h, n);
    BulksReadAll(input);
    BulksReadRight(input);
    PartRowReads(Bulks(input), Values(input), Parts(input), |h| + 3, n);
  }

  /** An array request is undecided exactly while the input ends within it; any other is refused. */
  lemma ArrayUndecided(input: bytes)
    requires input != [] && input[0] == '*' as int && |input| <= SIZE_MAX
    ensures Parse(input) == Incomplete <==> PartArray(input)
  {
    FindCrlfIs(input, 1);
    if FindCrlf(input, 1).Some? {
      if Parse(input) == Incomplete {
        PartArrayRead(input);
      }
      if PartArray(input) {
        var h: bytes, n: nat :| HeaderAt(input, h, n) && PartRow(Values(input), Parts(input), |h| + 3, n);
        PartArrayReads(input, h, n);
      }
    }
  }

  /** A printed command is an array of its name and arguments. */
  lemma PrintedIsArray(c: Command)
    requires Parsable(c)
    ensures ArrayTo(Encode(c), |Encode(c)|, Elements(c))
  {
    CommandRoundTrip(c, []);
    assert Encode(c) + [] == Encode(c);
    assert Encode(c)[0] == STAR;
    ArrayRead(Encode(c));
  }
}
