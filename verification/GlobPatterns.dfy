/** Glob patterns as they are written: what each means, and that the matcher decides it. */
module GlobPatterns {
  import opened Bytes
  import Glob

  datatype List<T> = Nil | Cons(head: T, tail: List<T>)

  // ----- patterns and what they mean -----

  /** A character as it is written: itself, or after a backslash. */
  datatype Char = Plain(b: byte) | Escaped(b: byte)

  /** A character of a class, or all between two, whichever comes first. */
  datatype Span = One(c: Char) | FromTo(a: Char, b: Char)

  datatype Piece =
    | Literal(c: Char)
    | AnyOne
    | AnyText
    | Class(negated: bool, spans: List<Span>)

  predicate Within(s: Span, v: byte) {
    match s
    case One(c) => v == c.b
    case FromTo(a, b) => Min(a.b, b.b) <= v <= Max(a.b, b.b)
  }

  predicate InClass(spans: List<Span>, v: byte) {
    spans.Cons? && (Within(spans.head, v) || InClass(spans.tail, v))
  }

  predicate Takes(piece: Piece, v: byte)
    requires !piece.AnyText?
  {
    match piece
    case Literal(c) => v == c.b
    case AnyOne => true
    case Class(negated, spans) => if negated then !InClass(spans, v) else InClass(spans, v)
  }

  /** The texts a pattern stands for. */
  predicate Means(pat: List<Piece>, v: bytes)
    decreases pat
  {
    match pat
    case Nil => v == []
    case Cons(AnyText, rest) => exists k :: 0 <= k <= |v| && Means(rest, v[k..])
    case Cons(piece, rest) => v != [] && Takes(piece, v[0]) && Means(rest, v[1..])
  }

  // ----- how a pattern is written -----

  function PrintChar(c: Char): (t: bytes)
    ensures |t| == if c.Plain? then 1 else 2
  {
    if c.Plain? then [c.b] else ['\\' as int, c.b]
  }

  function PrintSpan(s: Span): bytes {
    match s
    case One(c) => PrintChar(c)
    case FromTo(a, b) => PrintChar(a) + ['-' as int] + PrintChar(b)
  }

  function PrintSpans(spans: List<Span>): bytes {
    match spans
    case Nil => []
    case Cons(span, rest) => PrintSpan(span) + PrintSpans(rest)
  }

  function Opening(negated: bool): bytes {
    if negated then ['[' as int, '^' as int] else ['[' as int]
  }

  function PrintPiece(piece: Piece): bytes {
    match piece
    case Literal(c) => PrintChar(c)
    case AnyOne => ['?' as int]
    case AnyText => ['*' as int]
    case Class(negated, spans) => Opening(negated) + PrintSpans(spans) + [']' as int]
  }

  function Print(pat: List<Piece>): bytes {
    match pat
    case Nil => []
    case Cons(piece, rest) => PrintPiece(piece) + Print(rest)
  }

  // ----- which writings stand for themselves -----

  /** In a class a closing bracket and a backslash are written after a backslash. */
  predicate CharOk(c: Char) {
    c.Plain? ==> c.b != ']' as int && c.b != '\\' as int
  }

  function First(s: Span): Char {
    if s.One? then s.c else s.a
  }

  predicate StartsWith(spans: List<Span>, b: char) {
    spans.Cons? && First(spans.head) == Plain(b as int % 256)
  }

  /** A dash after a single character is plain only at the end of the class; else it would make a range. */
  predicate SpansOk(spans: List<Span>) {
    match spans
    case Nil => true
    case Cons(One(c), rest) =>
      CharOk(c) && SpansOk(rest) && (StartsWith(rest, '-') ==> rest == Cons(One(Plain('-' as int)), Nil))
    case Cons(FromTo(a, b), rest) => CharOk(a) && CharOk(b) && SpansOk(rest)
  }

  /** A caret in front is plain only after another one. */
  predicate ClassOk(negated: bool, spans: List<Span>) {
    SpansOk(spans) && (!negated ==> !StartsWith(spans, '^'))
  }

  /** Some closing bracket is not written after a backslash. */
  predicate Closes(t: bytes) {
    t != [] &&
    if t[0] == ']' as int then true
    else if t[0] == '\\' as int && |t| > 1 then Closes(t[2..])
    else Closes(t[1..])
  }

  /** A bracket stands for itself if no class ends after it, a backslash if nothing comes after it. */
  predicate PieceOk(piece: Piece, rest: bytes) {
    match piece
    case Literal(Plain(b)) =>
      && b != '*' as int && b != '?' as int && (b == '[' as int ==> !Closes(rest)) && (b == '\\' as int ==> rest == [])
    case Class(negated, spans) => ClassOk(negated, spans)
    case _ => true
  }

  predicate Written(pat: List<Piece>) {
    match pat
    case Nil => true
    case Cons(piece, rest) => PieceOk(piece, Print(rest)) && Written(rest)
  }

  // ----- places in a pattern -----

  /** The bytes of `part` are in the pattern at `off`, the first `i` of them aside. */
  predicate AtFrom(p: bytes, off: nat, part: bytes, i: nat)
    decreases |part| - i
  {
    i >= |part| || (off + i < |p| && p[off + i] == part[i] && AtFrom(p, off, part, i + 1))
  }

  predicate At(p: bytes, off: nat, part: bytes) {
    AtFrom(p, off, part, 0)
  }

  lemma {:induction false} AtRight(p: bytes, off: nat, a: bytes, b: bytes, i: nat)
    ensures AtFrom(p, off, a + b, |a| + i) <==> AtFrom(p, off + |a|, b, i)
    decreases |b| - i
  {
    if i < |b| {
      AtRight(p, off, a, b, i + 1);
    }
  }

  lemma {:induction false} AtLeft(p: bytes, off: nat, a: bytes, b: bytes, i: nat)
    requires i <= |a|
    ensures AtFrom(p, off, a + b, i) <==> AtFrom(p, off, a, i) && AtFrom(p, off + |a|, b, 0)
    decreases |a| - i
  {
    if i == |a| {
      AtRight(p, off, a, b, 0);
    } else {
      AtLeft(p, off, a, b, i + 1);
    }
  }

  lemma AtConcat(p: bytes, off: nat, a: bytes, b: bytes)
    ensures At(p, off, a + b) <==> At(p, off, a) && At(p, off + |a|, b)
  {
    AtLeft(p, off, a, b, 0);
  }

  lemma AtThree(p: bytes, off: nat, a: bytes, b: bytes, c: bytes)
    requires At(p, off, a + b + c)
    ensures At(p, off, a) && At(p, off + |a|, b) && At(p, off + |a| + |b|, c)
  {
    AtConcat(p, off, a + b, c);
    AtConcat(p, off, a, b);
  }

  lemma {:induction false} AtFromIndex(p: bytes, off: nat, part: bytes, i: nat, j: nat)
    requires AtFrom(p, off, part, i) && i <= j < |part|
    ensures off + j < |p| && p[off + j] == part[j]
    decreases j - i
  {
    if i < j {
      AtFromIndex(p, off, part, i + 1, j);
    }
  }

  lemma AtIndex(p: bytes, off: nat, part: bytes, i: nat)
    requires At(p, off, part) && i < |part|
    ensures off + i < |p| && p[off + i] == part[i]
  {
    AtFromIndex(p, off, part, 0, i);
  }

  // ----- reading a class -----

  function RangeOf(s: Span): Glob.Range {
    if s.One? then Glob.Range(s.c.b, s.c.b) else Glob.Range(s.a.b, s.b.b)
  }

  function RangesOf(spans: List<Span>): seq<Glob.Range> {
    match spans
    case Nil => []
    case Cons(span, rest) => [RangeOf(span)] + RangesOf(rest)
  }

  lemma HitsMore(r: Glob.Range, rs: seq<Glob.Range>, v: byte)
    ensures Glob.AnyHits([r] + rs, v) <==> Glob.Hits(r, v) || Glob.AnyHits(rs, v)
  {
    var all := [r] + rs;
    assert all[0] == r && forall i :: 0 <= i < |rs| ==> all[i + 1] == rs[i];
    if Glob.AnyHits(rs, v) {
      var i :| 0 <= i < |rs| && Glob.Hits(rs[i], v);
      assert Glob.Hits(all[i + 1], v);
    }
  }

  lemma {:induction false} HitsAll(spans: List<Span>, v: byte)
    ensures Glob.AnyHits(RangesOf(spans), v) <==> InClass(spans, v)
  {
    if spans.Cons? {
      HitsAll(spans.tail, v);
      HitsMore(RangeOf(spans.head), RangesOf(spans.tail), v);
    }
  }

  /** A character where it stands. */
  lemma CharAt(p: bytes, off: nat, c: Char)
    requires At(p, off, PrintChar(c)) && CharOk(c)
    ensures off < |p| && Glob.ReadAtom(p, off) == Glob.Atom(c.b, off + |PrintChar(c)|) && p[off] != Glob.CLOSE
    ensures p[off] == if c.Plain? then c.b else Glob.BACKSLASH
  {
    AtIndex(p, off, PrintChar(c), 0);
    if c.Escaped? {
      AtIndex(p, off, PrintChar(c), 1);
    }
  }

  /** The spans stand in the pattern from `off` to a closing bracket at `end`. */
  predicate Spelled(p: bytes, off: nat, spans: List<Span>, end: nat)
    decreases spans
  {
    match spans
    case Nil => off == end < |p| && p[end] == Glob.CLOSE
    case Cons(span, rest) => At(p, off, PrintSpan(span)) && Spelled(p, off + |PrintSpan(span)|, rest, end)
  }

  lemma {:induction false} PrintedSpelled(p: bytes, off: nat, spans: List<Span>)
    requires At(p, off, PrintSpans(spans)) && At(p, off + |PrintSpans(spans)|, [Glob.CLOSE])
    ensures Spelled(p, off, spans, off + |PrintSpans(spans)|)
    decreases spans
  {
    if spans.Nil? {
      AtIndex(p, off, [Glob.CLOSE], 0);
    } else {
      AtConcat(p, off, PrintSpan(spans.head), PrintSpans(spans.tail));
      PrintedSpelled(p, off + |PrintSpan(spans.head)|, spans.tail);
    }
  }

  /** The first byte of a span. */
  lemma FirstAt(p: bytes, off: nat, span: Span)
    requires At(p, off, PrintSpan(span))
    ensures off < |p| && p[off] == if First(span).Plain? then First(span).b else Glob.BACKSLASH
  {
    AtIndex(p, off, PrintSpan(span), 0);
  }

  /** A single character is not taken for the beginning of a range. */
  lemma NoRange(p: bytes, off: nat, spans: List<Span>, end: nat)
    requires StartsWith(spans, '-') ==> spans == Cons(One(Plain('-' as int)), Nil)
    requires Spelled(p, off, spans, end)
    ensures !(off + 1 < |p| && p[off] == Glob.DASH && p[off + 1] != Glob.CLOSE)
  {
    if spans.Cons? {
      FirstAt(p, off, spans.head);
      if StartsWith(spans, '-') {
        assert Spelled(p, off + 1, Nil, end);
      }
    }
  }

  lemma OneAt(p: bytes, off: nat, c: Char, rest: List<Span>, end: nat)
    requires CharOk(c) && (StartsWith(rest, '-') ==> rest == Cons(One(Plain('-' as int)), Nil))
    requires At(p, off, PrintChar(c)) && Spelled(p, off + |PrintChar(c)|, rest, end)
    ensures off < |p| && p[off] != Glob.CLOSE
    ensures Glob.ReadItem(p, off) == Glob.Item(RangeOf(One(c)), off + |PrintChar(c)|)
  {
    CharAt(p, off, c);
    NoRange(p, off + |PrintChar(c)|, rest, end);
  }

  lemma FromToAt(p: bytes, off: nat, a: Char, b: Char)
    requires CharOk(a) && CharOk(b) && At(p, off, PrintSpan(FromTo(a, b)))
    ensures off < |p| && p[off] != Glob.CLOSE
    ensures Glob.ReadItem(p, off) == Glob.Item(RangeOf(FromTo(a, b)), off + |PrintSpan(FromTo(a, b))|)
  {
    var dash := off + |PrintChar(a)|;
    AtThree(p, off, PrintChar(a), ['-' as int], PrintChar(b));
    CharAt(p, off, a);
    AtIndex(p, dash, ['-' as int], 0);
    CharAt(p, dash + 1, b);
  }

  lemma SpanAt(p: bytes, off: nat, span: Span, rest: List<Span>, end: nat)
    requires SpansOk(Cons(span, rest)) && Spelled(p, off, Cons(span, rest), end)
    ensures off < |p| && p[off] != Glob.CLOSE
    ensures Glob.ReadItem(p, off) == Glob.Item(RangeOf(span), off + |PrintSpan(span)|)
  {
    if span.One? {
      OneAt(p, off, span.c, rest, end);
    } else {
      FromToAt(p, off, span.a, span.b);
    }
  }

  lemma ReadStep(p: bytes, off: nat, range: Glob.Range, next: nat, ranges: seq<Glob.Range>, end: nat)
    requires off < |p| && p[off] != Glob.CLOSE && Glob.ReadItem(p, off) == Glob.Item(range, next)
    requires Glob.ReadClass(p, next) == Some(Glob.Class(ranges, end))
    ensures Glob.ReadClass(p, off) == Some(Glob.Class([range] + ranges, end))
  {
  }

  /** Spans are read back as the ranges they mean, up to the closing bracket. */
  lemma {:induction false} SpansAt(p: bytes, off: nat, spans: List<Span>, end: nat)
    requires SpansOk(spans) && Spelled(p, off, spans, end)
    ensures Glob.ReadClass(p, off) == Some(Glob.Class(RangesOf(spans), end))
    decreases spans
  {
    if spans.Cons? {
      var next := off + |PrintSpan(spans.head)|;
      SpanAt(p, off, spans.head, spans.tail, end);
      SpansAt(p, next, spans.tail, end);
      ReadStep(p, off, RangeOf(spans.head), next, RangesOf(spans.tail), end);
    }
  }

  /** A class ends where a closing bracket is not written after a backslash. */
  lemma {:induction false} ClosesExact(p: bytes, off: nat)
    requires off <= |p|
    ensures Glob.ReadClass(p, off).Some? <==> Closes(p[off..])
    decreases |p| - off
  {
    if off < |p| && p[off] != Glob.CLOSE {
      ItemCloses(p, off);
      ClosesExact(p, Glob.ReadItem(p, off).next);
    }
  }

  lemma ItemCloses(p: bytes, off: nat)
    requires off < |p| && p[off] != Glob.CLOSE
    ensures Closes(p[off..]) <==> Closes(p[Glob.ReadItem(p, off).next..])
  {
    var a := Glob.ReadAtom(p, off);
    AtomCloses(p, off);
    if a.next + 1 < |p| && p[a.next] == Glob.DASH && p[a.next + 1] != Glob.CLOSE {
      assert p[a.next..][1..] == p[a.next + 1..];
      AtomCloses(p, a.next + 1);
    }
  }

  lemma AtomCloses(p: bytes, off: nat)
    requires off < |p| && p[off] != Glob.CLOSE
    ensures Closes(p[off..]) <==> Closes(p[Glob.ReadAtom(p, off).next..])
  {
    var t := p[off..];
    assert t[1..] == p[off + 1..] && (|t| > 1 ==> t[2..] == p[off + 2..]);
  }

  // ----- one piece -----

  /** A piece other than a star, where it stands in a pattern. */
  ghost predicate Token(p: bytes, off: nat, piece: Piece, v: byte)
    requires !piece.AnyText?
  {
    && off < |p| && p[off] != Glob.STAR && Glob.Next(p, off) == off + |PrintPiece(piece)|
    && (Glob.Accepts(p, off, v) <==> Takes(piece, v))
  }

  lemma Negation(p: bytes, off: nat, negated: bool, spans: List<Span>, end: nat)
    requires At(p, off, Opening(negated)) && Spelled(p, off + |Opening(negated)|, spans, end)
    requires !negated ==> !StartsWith(spans, '^')
    ensures off < |p| && p[off] == Glob.OPEN && Glob.Negated(p, off) == negated
  {
    AtIndex(p, off, Opening(negated), 0);
    if negated {
      AtIndex(p, off, Opening(negated), 1);
    } else if spans.Cons? {
      FirstAt(p, off + 1, spans.head);
    }
  }

  lemma ClassAccepts(p: bytes, off: nat, negated: bool, ranges: seq<Glob.Range>, end: nat, v: byte)
    requires off < |p| && p[off] == Glob.OPEN && Glob.Negated(p, off) == negated
    requires Glob.ReadClass(p, off + |Opening(negated)|) == Some(Glob.Class(ranges, end))
    ensures Glob.Next(p, off) == end + 1
    ensures Glob.Accepts(p, off, v) <==> Glob.AnyHits(ranges, v) != negated
  {
  }

  function EndOf(off: nat, negated: bool, spans: List<Span>): nat {
    off + |Opening(negated)| + |PrintSpans(spans)|
  }

  lemma ClassParts(p: bytes, off: nat, negated: bool, spans: List<Span>)
    requires At(p, off, PrintPiece(Class(negated, spans)))
    ensures At(p, off, Opening(negated)) && At(p, off + |Opening(negated)|, PrintSpans(spans))
    ensures At(p, EndOf(off, negated, spans), [Glob.CLOSE])
  {
    AtThree(p, off, Opening(negated), PrintSpans(spans), [']' as int]);
  }

  lemma ClassToken(p: bytes, off: nat, negated: bool, spans: List<Span>, v: byte)
    requires ClassOk(negated, spans) && At(p, off, PrintPiece(Class(negated, spans)))
    ensures Token(p, off, Class(negated, spans), v)
  {
    var end := EndOf(off, negated, spans);
    ClassParts(p, off, negated, spans);
    PrintedSpelled(p, off + |Opening(negated)|, spans);
    Negation(p, off, negated, spans, end);
    SpansAt(p, off + |Opening(negated)|, spans, end);
    ClassAccepts(p, off, negated, RangesOf(spans), end, v);
    HitsAll(spans, v);
    ClassLength(off, negated, spans);
  }

  lemma ClassLength(off: nat, negated: bool, spans: List<Span>)
    ensures EndOf(off, negated, spans) + 1 == off + |PrintPiece(Class(negated, spans))|
  {
  }

  lemma LiteralToken(p: bytes, off: nat, c: Char, v: byte)
    requires At(p, off, PrintChar(c)) && off + |PrintChar(c)| <= |p| && PieceOk(Literal(c), p[off + |PrintChar(c)|..])
    ensures Token(p, off, Literal(c), v)
  {
    AtIndex(p, off, PrintChar(c), 0);
    if c.Escaped? {
      AtIndex(p, off, PrintChar(c), 1);
    } else if c.b == Glob.OPEN {
      Unclosed(p, off);
    }
  }

  /** A bracket that is never closed. */
  lemma Unclosed(p: bytes, off: nat)
    requires off < |p| && !Closes(p[off + 1..])
    ensures Glob.ClassAt(p, off).None?
  {
    ClosesExact(p, off + 1);
    if Glob.Negated(p, off) {
      assert p[off + 1..][1..] == p[off + 2..];
      ClosesExact(p, off + 2);
    }
  }

  lemma PieceToken(p: bytes, off: nat, piece: Piece, v: byte)
    requires !piece.AnyText? && At(p, off, PrintPiece(piece)) && off + |PrintPiece(piece)| <= |p|
    requires PieceOk(piece, p[off + |PrintPiece(piece)|..])
    ensures Token(p, off, piece, v)
  {
    match piece {
      case Literal(c) => LiteralToken(p, off, c, v);
      case AnyOne => AtIndex(p, off, ['?' as int], 0);
      case Class(negated, spans) => ClassToken(p, off, negated, spans, v);
    }
  }

  // ----- whole patterns -----

  /** The pieces stand in the pattern from `off` to the end. */
  predicate Laid(p: bytes, off: nat, pat: List<Piece>)
    decreases pat
  {
    match pat
    case Nil => off == |p|
    case Cons(piece, rest) =>
      var next := off + |PrintPiece(piece)|;
      next <= |p| && At(p, off, PrintPiece(piece)) && PieceOk(piece, p[next..]) && Laid(p, next, rest)
  }

  /** What stands at the end of a pattern is the rest of it. */
  lemma AtEnd(p: bytes, off: nat, t: bytes)
    requires At(p, off, t) && off + |t| == |p|
    ensures p[off..] == t
  {
    forall i | 0 <= i < |t| ensures p[off..][i] == t[i] {
      AtIndex(p, off, t, i);
    }
  }

  lemma {:induction false} PrintedLaid(p: bytes, off: nat, pat: List<Piece>)
    requires Written(pat) && At(p, off, Print(pat)) && off + |Print(pat)| == |p|
    ensures Laid(p, off, pat)
    decreases pat
  {
    if pat.Cons? {
      var a, b := PrintPiece(pat.head), Print(pat.tail);
      AtConcat(p, off, a, b);
      AtEnd(p, off + |a|, b);
      PrintedLaid(p, off + |a|, pat.tail);
    }
  }

  /** What a test of ends of the text against ends of the pattern makes of a star. */
  ghost predicate StarsRight(p: bytes, m: (bytes, nat) -> bool) {
    forall v: bytes, off: nat :: off < |p| && p[off] == Glob.STAR ==> (m(v, off) <==> SomeEnd(v, off + 1, m))
  }

  ghost predicate SomeEnd(v: bytes, off: nat, m: (bytes, nat) -> bool) {
    exists k :: 0 <= k <= |v| && m(v[k..], off)
  }

  /** And of another piece. */
  ghost predicate PieceRight(m: (bytes, nat) -> bool, v: bytes, off: nat, piece: Piece)
    requires !piece.AnyText?
  {
    m(v, off) <==> v != [] && Takes(piece, v[0]) && m(v[1..], off + |PrintPiece(piece)|)
  }

  ghost predicate PiecesRight(p: bytes, m: (bytes, nat) -> bool) {
    forall v: bytes, off: nat, piece: Piece, rest: List<Piece> ::
      !piece.AnyText? && Laid(p, off, Cons(piece, rest)) ==> PieceRight(m, v, off, piece)
  }

  ghost predicate EndRight(p: bytes, m: (bytes, nat) -> bool) {
    forall v: bytes :: m(v, |p|) <==> v == []
  }

  /** The matcher's notion of a match. */
  ghost function Matching(p: bytes): (bytes, nat) -> bool {
    (v: bytes, off: nat) => off <= |p| && Glob.Match(v, p, off)
  }

  lemma StarMatch(v: bytes, p: bytes, off: nat)
    requires off < |p| && p[off] == Glob.STAR
    ensures Matching(p)(v, off) <==> SomeEnd(v, off + 1, Matching(p))
  {
    assert v[0..] == v;
    Glob.StarLater(v, p, off, 0);
    if Glob.Later(v, p, off + 1, 0) {
      var k :| 0 <= k <= |v| && Glob.Match(v[k..], p, off + 1);
      assert Matching(p)(v[k..], off + 1);
    }
    if SomeEnd(v, off + 1, Matching(p)) {
      var k :| 0 <= k <= |v| && Matching(p)(v[k..], off + 1);
      assert Glob.Match(v[k..], p, off + 1);
    }
  }

  lemma TokenMatch(v: bytes, p: bytes, off: nat, piece: Piece)
    requires !piece.AnyText? && Token(p, off, piece, if v == [] then 0 else v[0])
    ensures off + |PrintPiece(piece)| <= |p|
    ensures Glob.Match(v, p, off) <==>
      v != [] && Takes(piece, v[0]) && Glob.Match(v[1..], p, off + |PrintPiece(piece)|)
  {
  }

  /** The first piece of a pattern other than a star takes one character. */
  lemma LaidMatch(v: bytes, p: bytes, off: nat, piece: Piece, rest: List<Piece>)
    requires !piece.AnyText? && Laid(p, off, Cons(piece, rest))
    ensures off + |PrintPiece(piece)| <= |p| && Laid(p, off + |PrintPiece(piece)|, rest)
    ensures Glob.Match(v, p, off) <==>
      v != [] && Takes(piece, v[0]) && Glob.Match(v[1..], p, off + |PrintPiece(piece)|)
  {
    PieceToken(p, off, piece, if v == [] then 0 else v[0]);
    TokenMatch(v, p, off, piece);
  }

  lemma MatchingRight(p: bytes)
    ensures StarsRight(p, Matching(p)) && PiecesRight(p, Matching(p)) && EndRight(p, Matching(p))
  {
    forall v: bytes, off: nat | off < |p| && p[off] == Glob.STAR
      ensures Matching(p)(v, off) <==> SomeEnd(v, off + 1, Matching(p))
    {
      StarMatch(v, p, off);
    }
    forall v: bytes, off: nat, piece: Piece, rest: List<Piece> | !piece.AnyText? && Laid(p, off, Cons(piece, rest))
      ensures PieceRight(Matching(p), v, off, piece)
    {
      LaidMatch(v, p, off, piece, rest);
    }
  }

  lemma LaidStar(p: bytes, off: nat, rest: List<Piece>)
    requires Laid(p, off, Cons(AnyText, rest))
    ensures off < |p| && p[off] == Glob.STAR && Laid(p, off + 1, rest)
  {
    AtIndex(p, off, ['*' as int], 0);
  }

  lemma StarMeans(v: bytes, off: nat, rest: List<Piece>, m: (bytes, nat) -> bool)
    requires forall k :: 0 <= k <= |v| ==> (m(v[k..], off) <==> Means(rest, v[k..]))
    ensures SomeEnd(v, off, m) <==> Means(Cons(AnyText, rest), v)
  {
    if SomeEnd(v, off, m) {
      var k :| 0 <= k <= |v| && m(v[k..], off);
      assert Means(rest, v[k..]);
    }
    if Means(Cons(AnyText, rest), v) {
      var k :| 0 <= k <= |v| && Means(rest, v[k..]);
      assert m(v[k..], off);
    }
  }

  lemma PieceMeans(v: bytes, off: nat, piece: Piece, rest: List<Piece>, m: (bytes, nat) -> bool)
    requires !piece.AnyText? && PieceRight(m, v, off, piece)
    requires v != [] ==> (m(v[1..], off + |PrintPiece(piece)|) <==> Means(rest, v[1..]))
    ensures m(v, off) <==> Means(Cons(piece, rest), v)
  {
  }

  lemma LaidPiece(p: bytes, off: nat, piece: Piece, rest: List<Piece>)
    requires Laid(p, off, Cons(piece, rest))
    ensures Laid(p, off + |PrintPiece(piece)|, rest)
  {
  }

  /** Any test that is right about each piece is right about the pattern. */
  lemma {:induction false} LaidMeans(v: bytes, p: bytes, off: nat, pat: List<Piece>, m: (bytes, nat) -> bool)
    requires Laid(p, off, pat) && StarsRight(p, m) && PiecesRight(p, m) && EndRight(p, m)
    ensures m(v, off) <==> Means(pat, v)
    decreases pat
  {
    match pat {
      case Nil =>
      case Cons(piece, rest) =>
        if piece.AnyText? {
          LaidStar(p, off, rest);
          forall k | 0 <= k <= |v| ensures m(v[k..], off + 1) <==> Means(rest, v[k..]) {
            LaidMeans(v[k..], p, off + 1, rest, m);
          }
          StarMeans(v, off + 1, rest, m);
        } else {
          assert PieceRight(m, v, off, piece);
          LaidPiece(p, off, piece, rest);
          if v != [] {
            LaidMeans(v[1..], p, off + |PrintPiece(piece)|, rest, m);
          }
          PieceMeans(v, off, piece, rest, m);
        }
    }
  }

  lemma {:induction false} AtWhole(p: bytes, i: nat)
    requires i <= |p|
    ensures AtFrom(p, 0, p, i)
    decreases |p| - i
  {
    if i < |p| {
      AtWhole(p, i + 1);
    }
  }

  /** The matcher decides what a pattern means from how it is written. */
  method Matches(v: bytes, pat: List<Piece>) returns (r: bool)
    requires Written(pat)
    ensures r <==> Means(pat, v)
  {
    r := Glob.MatchesGlob(v, Print(pat));
    AtWhole(Print(pat), 0);
    PrintedLaid(Print(pat), 0, pat);
    MatchingRight(Print(pat));
    LaidMeans(v, Print(pat), 0, pat, Matching(Print(pat)));
  }

  // ----- every text is a pattern -----

  /** A character of a class that is closed. */
  lemma ReadChar(t: bytes) returns (c: Char, rest: bytes)
    requires Closes(t) && t[0] != ']' as int
    ensures t == PrintChar(c) + rest && CharOk(c) && Closes(rest) && |rest| < |t|
  {
    if t[0] == '\\' as int && |t| > 1 {
      c, rest := Escaped(t[1]), t[2..];
      assert t == ['\\' as int, t[1]] + t[2..];
    } else {
      c, rest := Plain(t[0]), t[1..];
      assert t == [t[0]] + t[1..];
      assert Closes(t[1..]);
    }
  }

  /** The text of some spans and what follows their closing bracket. */
  predicate ReadAs(t: bytes, spans: List<Span>, rest: bytes) {
    t == PrintSpans(spans) + [']' as int] + rest && SpansOk(spans) && |rest| < |t|
  }

  lemma FirstByte(t: bytes, spans: List<Span>, rest: bytes)
    requires ReadAs(t, spans, rest)
    ensures spans.Nil? ==> t[0] == ']' as int
    ensures spans.Cons? ==> t[0] == if First(spans.head).Plain? then First(spans.head).b else '\\' as int
  {
    if spans.Cons? {
      assert PrintSpans(spans)[0] == PrintSpan(spans.head)[0];
      assert PrintSpan(spans.head)[0] == PrintChar(First(spans.head))[0];
    }
  }

  lemma TailReadAs(t: bytes, span: Span, spans: List<Span>, rest: bytes)
    requires ReadAs(t, Cons(span, spans), rest) && SpansOk(spans)
    ensures |PrintSpan(span)| <= |t| && ReadAs(t[|PrintSpan(span)|..], spans, rest)
    ensures forall i :: 0 <= i < |PrintSpan(span)| ==> t[i] == PrintSpan(span)[i]
  {
    var a, b := PrintSpan(span), PrintSpans(spans) + [']' as int] + rest;
    assert t == a + b;
    assert t[|a|..] == b;
  }

  lemma SecondByte(a: Char, b: Char)
    requires a.Plain?
    ensures |PrintSpan(FromTo(a, b))| > 1 && PrintSpan(FromTo(a, b))[1] == '-' as int
  {
  }

  /** A plain dash before the closing bracket is the last span. */
  lemma DashLast(t: bytes, spans: List<Span>, rest: bytes)
    requires ReadAs(t, spans, rest) && StartsWith(spans, '-') && |t| > 1 && t[1] == ']' as int
    ensures spans == Cons(One(Plain('-' as int)), Nil)
  {
    TailReadAs(t, spans.head, spans.tail, rest);
    if spans.head.FromTo? {
      SecondByte(spans.head.a, spans.head.b);
      assert false;
    }
    assert t[1..][0] == ']' as int;
    FirstByte(t[1..], spans.tail, rest);
    assert spans.tail.Cons? ==> CharOk(First(spans.tail.head));
  }

  lemma MoreReadAs(t: bytes, span: Span, after: bytes, spans: List<Span>, rest: bytes)
    requires t == PrintSpan(span) + after && ReadAs(after, spans, rest) && SpansOk(Cons(span, spans))
    ensures ReadAs(t, Cons(span, spans), rest)
  {
    assert PrintSpan(span) + (PrintSpans(spans) + [']' as int] + rest)
        == (PrintSpan(span) + PrintSpans(spans)) + [']' as int] + rest;
  }

  lemma RangeText(t: bytes, a: Char, after: bytes, b: Char, rest: bytes)
    requires t == PrintChar(a) + after && after != [] && after[0] == '-' as int && after[1..] == PrintChar(b) + rest
    ensures t == PrintSpan(FromTo(a, b)) + rest
  {
    assert after == ['-' as int] + after[1..];
    assert PrintChar(a) + (['-' as int] + (PrintChar(b) + rest)) == PrintChar(a) + ['-' as int] + PrintChar(b) + rest;
  }

  lemma {:induction false} ReadSpans(t: bytes) returns (spans: List<Span>, rest: bytes)
    requires Closes(t)
    ensures ReadAs(t, spans, rest)
    decreases |t|
  {
    if t[0] == ']' as int {
      spans, rest := Nil, t[1..];
      assert t == [] + [']' as int] + t[1..];
    } else {
      var a, after := ReadChar(t);
      if |after| > 1 && after[0] == '-' as int && after[1] != ']' as int {
        var b, more := ReadChar(after[1..]);
        var tail;
        tail, rest := ReadSpans(more);
        spans := Cons(FromTo(a, b), tail);
        RangeText(t, a, after, b, more);
        MoreReadAs(t, FromTo(a, b), more, tail, rest);
      } else {
        var tail;
        tail, rest := ReadSpans(after);
        spans := Cons(One(a), tail);
        if StartsWith(tail, '-') {
          FirstByte(after, tail, rest);
          assert Closes(after[1..]);
          DashLast(after, tail, rest);
        }
        MoreReadAs(t, One(a), after, tail, rest);
      }
    }
  }

  lemma ReadClass(t: bytes) returns (piece: Piece, rest: bytes)
    requires t != [] && t[0] == '[' as int && Closes(t[1..])
    ensures PieceOk(piece, rest) && t == PrintPiece(piece) + rest && |rest| < |t|
  {
    var negated := t[1] == '^' as int;
    var inside := t[|Opening(negated)|..];
    assert negated ==> t[1..][1..] == inside;
    assert t == Opening(negated) + inside;
    var spans;
    spans, rest := ReadSpans(inside);
    FirstByte(inside, spans, rest);
    piece := Class(negated, spans);
    assert Opening(negated) + (PrintSpans(spans) + [']' as int] + rest)
        == Opening(negated) + PrintSpans(spans) + [']' as int] + rest;
  }

  lemma ReadPiece(t: bytes) returns (piece: Piece, rest: bytes)
    requires t != []
    ensures PieceOk(piece, rest) && t == PrintPiece(piece) + rest && |rest| < |t|
  {
    if t[0] == '[' as int && Closes(t[1..]) {
      piece, rest := ReadClass(t);
    } else if t[0] == '\\' as int && |t| > 1 {
      piece, rest := Literal(Escaped(t[1])), t[2..];
      assert t == ['\\' as int, t[1]] + t[2..];
    } else {
      piece := if t[0] == '*' as int then AnyText else if t[0] == '?' as int then AnyOne else Literal(Plain(t[0]));
      rest := t[1..];
      assert t == [t[0]] + t[1..];
    }
  }

  /** Every text is a pattern as it is written, so that the matcher is right about all of them. */
  lemma {:induction false} EveryTextIsPattern(t: bytes) returns (pat: List<Piece>)
    ensures Written(pat) && Print(pat) == t
    decreases |t|
  {
    if t == [] {
      pat := Nil;
    } else {
      var piece, rest := ReadPiece(t);
      var more := EveryTextIsPattern(rest);
      pat := Cons(piece, more);
    }
  }
}
