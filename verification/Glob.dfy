/** Glob patterns (utils/string_utils.cpp): what a pattern means, and the matcher that keeps one retry point. */
module Glob {
  import opened Bytes

  const STAR: byte := 42
  const QUESTION: byte := 63
  const OPEN: byte := 91
  const CLOSE: byte := 93
  const CARET: byte := 94
  const DASH: byte := 45
  const BACKSLASH: byte := 92

  // ----- character classes -----

  /** The bytes between two bounds, in either order. */
  datatype Range = Range(a: byte, b: byte)

  predicate Hits(r: Range, v: byte) {
    if r.a <= r.b then r.a <= v <= r.b else r.b <= v <= r.a
  }

  ghost predicate AnyHits(ranges: seq<Range>, v: byte) {
    exists i :: 0 <= i < |ranges| && Hits(ranges[i], v)
  }

  datatype Atom = Atom(value: byte, next: nat)

  /** One character of a class, which a backslash takes literally. */
  function ReadAtom(p: bytes, c: nat): (a: Atom)
    requires c < |p|
    ensures c < a.next <= |p|
  {
    if p[c] == BACKSLASH && c + 1 < |p| then Atom(p[c + 1], c + 2) else Atom(p[c], c + 1)
  }

  datatype Item = Item(range: Range, next: nat)

  /** One range of a class: two characters with a dash between them, or one. */
  function ReadItem(p: bytes, c: nat): (i: Item)
    requires c < |p|
    ensures c < i.next <= |p|
  {
    var a := ReadAtom(p, c);
    if a.next + 1 < |p| && p[a.next] == DASH && p[a.next + 1] != CLOSE then
      var b := ReadAtom(p, a.next + 1);
      Item(Range(a.value, b.value), b.next)
    else
      Item(Range(a.value, a.value), a.next)
  }

  datatype Class = Class(ranges: seq<Range>, end: nat)

  /** The ranges up to the closing bracket, if there is one. */
  function ReadClass(p: bytes, c: nat): (k: Option<Class>)
    ensures k.Some? ==> c <= k.value.end < |p|
    decreases |p| - c
  {
    if c >= |p| then None
    else if p[c] == CLOSE then Some(Class([], c))
    else
      var i := ReadItem(p, c);
      Prepend(i.range, ReadClass(p, i.next))
  }

  function Prepend(r: Range, k: Option<Class>): Option<Class> {
    if k.None? then None else Some(Class([r] + k.value.ranges, k.value.end))
  }

  // ----- tokens -----

  predicate Negated(p: bytes, off: nat) {
    off + 1 < |p| && p[off + 1] == CARET
  }

  function ClassAt(p: bytes, off: nat): (k: Option<Class>)
    requires off < |p|
    ensures k.Some? ==> off < k.value.end < |p|
  {
    ReadClass(p, if Negated(p, off) then off + 2 else off + 1)
  }

  /** Where the token after `off` begins; it does not depend on the text. */
  function Next(p: bytes, off: nat): (n: nat)
    requires off < |p|
    ensures off < n <= |p|
  {
    if p[off] == OPEN && ClassAt(p, off).Some? then ClassAt(p, off).value.end + 1
    else if p[off] == BACKSLASH && off + 1 < |p| then off + 2
    else off + 1
  }

  /** Whether the token at `off` accepts a character; a bracket that is never closed stands for itself. */
  ghost predicate Accepts(p: bytes, off: nat, v: byte)
    requires off < |p|
  {
    if p[off] == QUESTION then true
    else if p[off] == OPEN && ClassAt(p, off).Some? then AnyHits(ClassAt(p, off).value.ranges, v) != Negated(p, off)
    else if p[off] == BACKSLASH && off + 1 < |p| then p[off + 1] == v
    else p[off] == v
  }

  /**
   * The meaning of a pattern from `off` on: a star stands for any text, any other token for one character it
   * accepts.
   */
  ghost predicate Match(v: bytes, p: bytes, off: nat)
    requires off <= |p|
    decreases |p| - off, |v|
  {
    if off == |p| then v == []
    else if p[off] == STAR then Match(v, p, off + 1) || (v != [] && Match(v[1..], p, off))
    else v != [] && Accepts(p, off, v[0]) && Match(v[1..], p, Next(p, off))
  }

  // ----- the code -----

  /** Reads a class while testing a character against it. */
  method MatchCharacterClass(p: bytes, off: nat, v: byte) returns (next: nat, matches: bool)
    requires off < |p| && p[off] == OPEN
    ensures next == Next(p, off) && matches == Accepts(p, off, v)
  {
    var cursor := off + 1;
    var negate := cursor < |p| && p[cursor] == CARET;
    if negate {
      cursor := cursor + 1;
    }
    ghost var all := ReadClass(p, cursor);
    var matched := false;
    while cursor < |p| && p[cursor] != CLOSE
      invariant cursor <= |p|
      invariant Rest(all, matched, ReadClass(p, cursor), v)
      decreases |p| - cursor
    {
      ghost var item := ReadItem(p, cursor);
      RestOn(all, matched, ReadClass(p, cursor), item.range, ReadClass(p, item.next), v);
      var a := ReadAtom(p, cursor);
      cursor := a.next;
      if cursor + 1 < |p| && p[cursor] == DASH && p[cursor + 1] != CLOSE {
        var b := ReadAtom(p, cursor + 1);
        cursor := b.next;
        matched := matched || if a.value <= b.value then a.value <= v <= b.value else b.value <= v <= a.value;
      } else {
        matched := matched || v == a.value;
      }
    }
    if cursor == |p| {
      return off + 1, v == OPEN;
    }
    return cursor + 1, if negate then !matched else matched;
  }

  /** What is still to be read decides together with what has matched. */
  ghost predicate Rest(all: Option<Class>, matched: bool, rest: Option<Class>, v: byte) {
    && (all.Some? <==> rest.Some?)
    && (all.Some? ==> all.value.end == rest.value.end && (AnyHits(all.value.ranges, v) <==>
      matched || AnyHits(rest.value.ranges, v)))
  }

  lemma RestOn(all: Option<Class>, matched: bool, was: Option<Class>, r: Range, rest: Option<Class>, v: byte)
    requires Rest(all, matched, was, v) && was == Prepend(r, rest)
    ensures Rest(all, matched || Hits(r, v), rest, v)
  {
    if rest.Some? {
      var more := was.value.ranges;
      assert more == [r] + rest.value.ranges;
      assert Hits(more[0], v) ==> AnyHits(more, v);
      assert forall i :: 0 <= i < |rest.value.ranges| ==> more[i + 1] == rest.value.ranges[i];
      if AnyHits(rest.value.ranges, v) {
        var i :| 0 <= i < |rest.value.ranges| && Hits(rest.value.ranges[i], v);
        assert Hits(more[i + 1], v);
      }
    }
  }

  method MatchGlobToken(p: bytes, off: nat, v: byte) returns (next: nat, matches: bool)
    requires off < |p|
    ensures next == Next(p, off) && matches == Accepts(p, off, v)
  {
    if p[off] == QUESTION {
      return off + 1, true;
    }
    if p[off] == OPEN {
      next, matches := MatchCharacterClass(p, off, v);
      return;
    }
    if p[off] == BACKSLASH && off + 1 < |p| {
      return off + 2, p[off + 1] == v;
    }
    return off + 1, p[off] == v;
  }

  // ----- one retry point is enough -----

  /** Some end of the text from `k` on matches. */
  ghost predicate Later(v: bytes, p: bytes, off: nat, k: nat)
    requires off <= |p|
  {
    exists j :: k <= j <= |v| && Match(v[j..], p, off)
  }

  lemma DropDrop(v: bytes, j: nat, i: nat)
    requires j <= |v| && i <= |v| - j
    ensures v[j..][i..] == v[j + i..]
  {
  }

  lemma LaterHere(v: bytes, p: bytes, off: nat, k: nat)
    requires off <= |p| && k <= |v|
    ensures Later(v, p, off, k) <==> Match(v[k..], p, off) || Later(v, p, off, k + 1)
  {
  }

  /** A star matches some text from here on and what follows it the rest. */
  lemma {:induction false} StarLater(v: bytes, p: bytes, off: nat, k: nat)
    requires off < |p| && p[off] == STAR && k <= |v|
    ensures Match(v[k..], p, off) <==> Later(v, p, off + 1, k)
    decreases |v| - k
  {
    LaterHere(v, p, off + 1, k);
    if k < |v| {
      StarLater(v, p, off, k + 1);
      DropDrop(v, k, 1);
    }
  }

  /** Further stars change nothing. */
  lemma {:induction false} StarsLater(v: bytes, p: bytes, off: nat, end: nat, k: nat)
    requires off < end <= |p| && k <= |v| && forall i :: off <= i < end ==> p[i] == STAR
    ensures Match(v[k..], p, off) <==> Later(v, p, end, k)
    decreases end - off
  {
    StarLater(v, p, off, k);
    if off + 1 < end {
      forall j | k <= j <= |v| ensures Match(v[j..], p, off + 1) <==> Later(v, p, end, j) {
        StarsLater(v, p, off + 1, end, j);
      }
    }
  }

  /** Where `n` tokens from `off` lead, if none of them is a star. */
  function After(p: bytes, off: nat, n: nat): (r: Option<nat>)
    requires off <= |p|
    ensures r.Some? ==> off <= r.value <= |p|
    decreases n
  {
    if n == 0 then Some(off) else if off == |p| || p[off] == STAR then None else After(p, Next(p, off), n - 1)
  }

  lemma {:induction false} AfterNext(p: bytes, off: nat, n: nat, here: nat)
    requires off <= |p| && After(p, off, n) == Some(here) && here < |p| && p[here] != STAR
    ensures After(p, off, n + 1) == Some(Next(p, here))
    decreases n
  {
    if n > 0 {
      AfterNext(p, Next(p, off), n - 1, here);
    }
  }

  /** Text that matches from `off` has a character for each of the next `n` tokens. */
  lemma {:induction false} TokensTake(v: bytes, p: bytes, off: nat, n: nat, here: nat)
    requires off <= |p| && After(p, off, n) == Some(here) && Match(v, p, off)
    ensures n <= |v| && Match(v[n..], p, here)
    decreases n
  {
    if n > 0 {
      TokensTake(v[1..], p, Next(p, off), n - 1, here);
      DropDrop(v, 1, n - 1);
    }
  }

  lemma LaterTakes(v: bytes, p: bytes, off: nat, n: nat, here: nat, k: nat)
    requires off <= |p| && After(p, off, n) == Some(here)
    ensures Later(v, p, off, k) ==> Later(v, p, here, k + n)
  {
    if Later(v, p, off, k) {
      var j :| k <= j <= |v| && Match(v[j..], p, off);
      TokensTake(v[j..], p, off, n, here);
      DropDrop(v, j, n);
      assert Match(v[j + n..], p, here);
    }
  }

  lemma LaterStars(v: bytes, p: bytes, here: nat, end: nat, k: nat, j: nat)
    requires here < end <= |p| && j <= k && forall i :: here <= i < end ==> p[i] == STAR
    ensures Later(v, p, here, k) ==> Later(v, p, end, j)
  {
    if Later(v, p, here, k) {
      var i :| k <= i <= |v| && Match(v[i..], p, here);
      StarsLater(v, p, here, end, i);
    }
  }

  lemma {:induction false} OnlyStars(p: bytes, off: nat)
    requires off <= |p|
    ensures Match([], p, off) <==> forall i :: off <= i < |p| ==> p[i] == STAR
    decreases |p| - off
  {
    if off < |p| && p[off] == STAR {
      OnlyStars(p, off + 1);
    }
  }

  /** What the matcher has still to decide: here, or at a retry after `rv`. */
  ghost predicate Open(v: bytes, p: bytes, vo: nat, po: nat, retry: Option<nat>, rv: nat)
    requires vo <= |v| && po <= |p| && (retry.Some? ==> retry.value <= |p|)
  {
    Match(v[vo..], p, po) || (retry.Some? && Later(v, p, retry.value, rv + 1))
  }

  method SkipStars(p: bytes, off: nat) returns (end: nat)
    requires off <= |p|
    ensures off <= end <= |p| && (forall i :: off <= i < end ==> p[i] == STAR) && (end < |p| ==> p[end] != STAR)
  {
    end := off;
    while end < |p| && p[end] == STAR
      invariant off <= end <= |p| && forall i :: off <= i < end ==> p[i] == STAR
    {
      end := end + 1;
    }
  }

  /** At a star an earlier retry point can be forgotten: whatever it could still find, the star finds. */
  lemma StarForgets(v: bytes, p: bytes, vo: nat, po: nat, retry: Option<nat>, rv: nat, end: nat)
    requires vo <= |v| && po < end <= |p| && forall i :: po <= i < end ==> p[i] == STAR
    requires retry.Some? ==> retry.value <= |p| && rv <= vo && After(p, retry.value, vo - rv) == Some(po)
    ensures Open(v, p, vo, po, retry, rv) <==> Open(v, p, vo, end, Some(end), vo)
  {
    StarsLater(v, p, po, end, vo);
    LaterHere(v, p, end, vo);
    if retry.Some? {
      LaterTakes(v, p, retry.value, vo - rv, po, rv + 1);
      LaterStars(v, p, po, end, rv + 1 + (vo - rv), vo);
    }
  }

  /** At the end of the text a retry would need more characters than are left. */
  lemma EndForgets(v: bytes, p: bytes, po: nat, retry: Option<nat>, rv: nat)
    requires po <= |p| && (retry.Some? ==> retry.value <= |p| && rv <= |v| && After(p, retry.value, |v| - rv) == Some(po))
    ensures Open(v, p, |v|, po, retry, rv) <==> Match([], p, po)
  {
    assert v[|v|..] == [];
    if retry.Some? {
      LaterTakes(v, p, retry.value, |v| - rv, po, rv + 1);
    }
  }

  /**
   * Where the matcher is: at `vo` in the text and `po` in the pattern, having come from its retry point token
   * by token.
   */
  ghost predicate Placed(v: bytes, p: bytes, vo: nat, po: nat, retry: Option<nat>, rv: nat) {
    && vo <= |v| && po <= |p| && rv <= vo
    && (retry.Some? ==> retry.value <= |p| && After(p, retry.value, vo - rv) == Some(po))
  }

  /** A token that accepts the character leads on. */
  lemma TokenTaken(v: bytes, p: bytes, vo: nat, po: nat, retry: Option<nat>, rv: nat)
    requires Placed(v, p, vo, po, retry, rv) && vo < |v| && po < |p| && p[po] != STAR && Accepts(p, po, v[vo])
    ensures Placed(v, p, vo + 1, Next(p, po), retry, rv)
    ensures Open(v, p, vo, po, retry, rv) <==> Open(v, p, vo + 1, Next(p, po), retry, rv)
  {
    DropDrop(v, vo, 1);
    if retry.Some? {
      AfterNext(p, retry.value, vo - rv, po);
    }
  }

  /** At a token that does not, or at the end of the pattern, only a retry is left. */
  lemma TokenRefused(v: bytes, p: bytes, vo: nat, po: nat, retry: Option<nat>, rv: nat)
    requires Placed(v, p, vo, po, retry, rv) && vo < |v| && (po < |p| ==> p[po] != STAR && !Accepts(p, po, v[vo]))
    ensures retry.None? ==> !Open(v, p, vo, po, retry, rv)
    ensures retry.Some? ==> (Open(v, p, vo, po, retry, rv) <==> Open(v, p, rv + 1, retry.value, retry, rv + 1))
    ensures retry.Some? ==> Placed(v, p, rv + 1, retry.value, retry, rv + 1)
  {
    DropDrop(v, vo, 1);
    if retry.Some? {
      LaterHere(v, p, retry.value, rv + 1);
    }
  }

  /** The matcher decides exactly what the pattern means. */
  method MatchesGlob(v: bytes, p: bytes) returns (r: bool)
    ensures r == Match(v, p, 0)
  {
    var vo: nat, po: nat, rv: nat := 0, 0, 0;
    var retry: Option<nat> := None;
    assert v[0..] == v;
    while vo < |v|
      invariant Placed(v, p, vo, po, retry, rv) && (Open(v, p, vo, po, retry, rv) <==> Match(v, p, 0))
      decreases if retry.Some? then |p| - retry.value else |p| + 1, |v| - rv, |v| - vo
    {
      if po < |p| && p[po] == STAR {
        var end := SkipStars(p, po);
        StarForgets(v, p, vo, po, retry, rv, end);
        po, retry, rv := end, Some(end), vo;
        continue;
      }
      if po < |p| {
        var next, matches := MatchGlobToken(p, po, v[vo]);
        if matches {
          TokenTaken(v, p, vo, po, retry, rv);
          po, vo := next, vo + 1;
          continue;
        }
      }
      TokenRefused(v, p, vo, po, retry, rv);
      if retry.None? {
        return false;
      }
      rv := rv + 1;
      po, vo := retry.value, rv;
    }
    EndForgets(v, p, po, retry, rv);
    OnlyStars(p, po);
    var end := SkipStars(p, po);
    return end == |p|;
  }
}
