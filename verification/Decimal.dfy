/** Decimal text of integers: utils/int_utils.cpp and the integer half of utils/string_utils.cpp. */
module Decimal {
  import opened Bytes

  const ZERO: byte := 48
  const PLUS: byte := 43
  const MINUS: byte := 45
  const INT64_MAX: int := 0x7FFF_FFFF_FFFF_FFFF
  const INT64_MIN: int := -0x8000_0000_0000_0000
  const UINT64_MAX: int := 0xFFFF_FFFF_FFFF_FFFF

  predicate IsInt64(v: int) {
    INT64_MIN <= v <= INT64_MAX
  }

  predicate IsDigit(b: byte) {
    ZERO <= b <= ZERO + 9
  }

  predicate AllDigits(s: bytes) {
    forall i :: 0 <= i < |s| ==> IsDigit(s[i])
  }

  /** The decimal digits of `n`, most significant first, with no redundant zero. */
  function Digits(n: nat): bytes {
    if n < 10 then [ZERO + n] else Digits(n / 10) + [ZERO + n % 10]
  }

  /** The number a digit string denotes. */
  function Value(s: bytes): int {
    if s == [] then 0 else Value(s[..|s| - 1]) * 10 + (s[|s| - 1] - ZERO)
  }

  /** The decimal text of a signed integer. */
  function Text(v: int): bytes {
    if v < 0 then [MINUS] + Digits(-v) else Digits(v)
  }

  /** A digit string that `Digits` could have produced. */
  predicate Canonical(s: bytes) {
    AllDigits(s) && |s| > 0 && (s[0] == ZERO ==> |s| == 1)
  }

  lemma {:induction false} DigitsCanonical(n: nat)
    ensures Canonical(Digits(n))
    ensures n > 0 ==> Digits(n)[0] != ZERO
  {
    if n >= 10 {
      DigitsCanonical(n / 10);
    }
  }

  lemma DivideTwice(n: nat, p: nat)
    requires p > 0
    ensures n / 10 / p == n / (10 * p)
  {
    var q, r := n / 10 / p, n / 10 % p;
    assert n / 10 == q * p + r && n == 10 * (n / 10) + n % 10;
    assert n == q * (10 * p) + (10 * r + n % 10) && 0 <= 10 * r + n % 10 < 10 * p;
    DivideBy(n, 10 * p, q, 10 * r + n % 10);
  }

  lemma Times(a: nat, b: nat, d: nat)
    ensures a <= b ==> a * d <= b * d
  {
  }

  lemma DivideBy(n: nat, d: nat, q: nat, r: nat)
    requires d > 0 && n == q * d + r && r < d
    ensures n / d == q
  {
    Times(n / d + 1, q, d);
    Times(q + 1, n / d, d);
  }

  /** The digit of each power of ten, counted from the right. */
  lemma {:induction false} DigitAt(n: nat, i: nat)
    requires i < |Digits(n)|
    ensures Digits(n)[|Digits(n)| - 1 - i] == '0' as int + n / Pow10(i) % 10
  {
    if i > 0 {
      DigitAt(n / 10, i - 1);
      DivideTwice(n, Pow10(i - 1));
    }
  }

  lemma {:induction false} ValueOfDigits(n: nat)
    ensures Value(Digits(n)) == n
  {
    if n < 10 {
      assert Digits(n)[..0] == [];
    } else {
      ValueOfDigits(n / 10);
      var d := Digits(n);
      assert d[..|d| - 1] == Digits(n / 10);
    }
  }

  lemma {:induction false} ValueNonNegative(s: bytes)
    requires AllDigits(s)
    ensures Value(s) >= 0
  {
    if s != [] {
      ValueNonNegative(s[..|s| - 1]);
    }
  }

  lemma {:induction false} ValuePositive(s: bytes)
    requires AllDigits(s) && s != [] && s[0] != ZERO
    ensures Value(s) > 0
  {
    if |s| == 1 {
      assert s[..0] == [];
    } else {
      ValuePositive(s[..|s| - 1]);
    }
  }

  /** Canonical digit strings are exactly the images of `Digits`. */
  lemma {:induction false} DigitsOfValue(s: bytes)
    requires Canonical(s)
    ensures Value(s) >= 0 && Digits(Value(s)) == s
  {
    if |s| == 1 {
      assert s[..0] == [];
      assert s == [s[0]];
    } else {
      var t := s[..|s| - 1];
      ValuePositive(t);
      DigitsOfValue(t);
      var d := s[|s| - 1] - ZERO;
      assert (Value(t) * 10 + d) / 10 == Value(t) && (Value(t) * 10 + d) % 10 == d;
      assert s == t + [s[|s| - 1]];
    }
  }

  /** Digit strings extend to the right one digit at a time. */
  lemma ValueSnoc(s: bytes, b: byte)
    ensures Value(s + [b]) == Value(s) * 10 + (b - ZERO)
  {
    assert (s + [b])[..|s|] == s;
  }

  lemma {:induction false} ValueGrows(s: bytes, t: bytes)
    requires AllDigits(s) && AllDigits(t)
    ensures Value(s) <= Value(s + t)
  {
    ValueNonNegative(s);
    if t == [] {
      assert s + t == s;
    } else {
      var u := t[..|t| - 1];
      ValueGrows(s, u);
      assert s + t == (s + u) + [t[|t| - 1]];
      ValueSnoc(s + u, t[|t| - 1]);
    }
  }

  // ----- utils/int_utils.cpp -----

  /** The number of decimal digits, by the comparison ladder of the source. */
  function Digits10(v: nat): (r: nat)
    ensures r == |Digits(v)|
  {
    if v < 10 then 1
    else if v < 100 then 2
    else if v < 1000 then DigitCount(v, 3); 3
    else if v < 1_000_000_000_000 then
      if v < 100_000_000 then
        if v < 1_000_000 then
          if v < 10_000 then DigitCount(v, 4); 4
          else DigitCount(v, if v >= 100_000 then 6 else 5); 5 + (if v >= 100_000 then 1 else 0)
        else DigitCount(v, if v >= 10_000_000 then 8 else 7); 7 + (if v >= 10_000_000 then 1 else 0)
      else if v < 10_000_000_000 then
        DigitCount(v, if v >= 1_000_000_000 then 10 else 9); 9 + (if v >= 1_000_000_000 then 1 else 0)
      else
        DigitCount(v, if v >= 100_000_000_000 then 12 else 11); 11 + (if v >= 100_000_000_000 then 1 else 0)
    else
      DropTwelve(v); 12 + Digits10(v / 1_000_000_000_000)
  }

  function Pow10(n: nat): (p: nat)
    ensures p > 0
  {
    if n == 0 then 1 else 10 * Pow10(n - 1)
  }

  lemma {:induction false} DigitCount(v: nat, n: nat)
    requires n >= 1
    requires Pow10(n - 1) <= v < Pow10(n) || (n == 1 && v < 10)
    ensures |Digits(v)| == n
  {
    if v >= 10 {
      assert n >= 2;
      assert Pow10(n - 1) == 10 * Pow10(n - 2);
      DigitCount(v / 10, n - 1);
    }
  }

  lemma DropSix(v: nat)
    requires v >= 1_000_000
    ensures |Digits(v)| == 6 + |Digits(v / 1_000_000)|
  {
    var a := v / 10;
    var b := a / 10;
    var c := b / 10;
    var d := c / 10;
    var e := d / 10;
    assert |Digits(v)| == 1 + |Digits(a)|;
    assert |Digits(a)| == 1 + |Digits(b)|;
    assert |Digits(b)| == 1 + |Digits(c)|;
    assert |Digits(c)| == 1 + |Digits(d)|;
    assert |Digits(d)| == 1 + |Digits(e)|;
    assert |Digits(e)| == 1 + |Digits(e / 10)|;
    assert e / 10 == v / 1_000_000;
  }

  lemma DropTwelve(v: nat)
    requires v >= 1_000_000_000_000
    ensures |Digits(v)| == 12 + |Digits(v / 1_000_000_000_000)|
  {
    DropSix(v);
    DropSix(v / 1_000_000);
    assert v / 1_000_000 / 1_000_000 == v / 1_000_000_000_000;
  }

  // ----- utils/string_utils.cpp -----

  /** Digit pairs "00", "01", ... "99", looked up two digits at a time. */
  const DIGIT_PAIRS: bytes := seq(200, k requires 0 <= k < 200 =>
    if k % 2 == 0 then ZERO + k / 2 / 10 else ZERO + k / 2 % 10)

  lemma DigitsByPairs(v: nat)
    requires v >= 10
    ensures v >= 100 ==> Digits(v) == Digits(v / 100) + [DIGIT_PAIRS[v % 100 * 2], DIGIT_PAIRS[v % 100 * 2 + 1]]
    ensures v < 100 ==> Digits(v) == [DIGIT_PAIRS[v * 2], DIGIT_PAIRS[v * 2 + 1]]
  {
    if v >= 100 {
      var i := v % 100;
      assert v / 10 / 10 == v / 100 && v / 10 % 10 == i / 10 && v % 10 == i % 10;
      assert Digits(v) == Digits(v / 10) + [ZERO + v % 10];
      assert Digits(v / 10) == Digits(v / 100) + [ZERO + i / 10];
      assert (i * 2) / 2 == i && (i * 2) % 2 == 0 && (i * 2 + 1) / 2 == i && (i * 2 + 1) % 2 == 1;
      assert Digits(v) == Digits(v / 100) + [ZERO + i / 10] + [ZERO + i % 10];
    } else {
      assert Digits(v) == Digits(v / 10) + [ZERO + v % 10];
      assert (v * 2) / 2 == v && (v * 2) % 2 == 0 && (v * 2 + 1) / 2 == v && (v * 2 + 1) % 2 == 1;
    }
  }

  /** Looks up the last two digits of `v` and drops them. */
  method TakePair(v: nat, ghost d: bytes) returns (tens: byte, ones: byte, rest: nat)
    requires v >= 10 && d == Digits(v)
    ensures |d| >= 2 && d[|d| - 2] == tens && d[|d| - 1] == ones
    ensures rest < v && (v >= 100 ==> |d| > 2 && Digits(rest) == d[..|d| - 2])
    ensures v < 100 ==> |d| == 2
  {
    var i := v % 100 * 2;
    tens, ones, rest := DIGIT_PAIRS[i], DIGIT_PAIRS[i + 1], v / 100;
    DigitsByPairs(v);
    DigitsCanonical(rest);
  }

  /** Writes the one or two leading digits. */
  method WriteLast(dst: array<byte>, off: nat, v: nat, ghost d: bytes)
    requires v < 100 && d == Digits(v) && off + |d| <= dst.Length
    modifies dst
    ensures forall k :: 0 <= k < dst.Length ==> dst[k] == if off <= k < off + |d| then d[k - off] else old(dst[k])
  {
    if v < 10 {
      dst[off] := ZERO + v;
    } else {
      var tens, ones, _ := TakePair(v, d);
      dst[off + 1] := ones;
      dst[off] := tens;
    }
  }

  /** Writes the last two digits of `v`, and gives the number without them. */
  method WritePair(dst: array<byte>, off: nat, next: nat, v: nat, ghost d: bytes) returns (rest: nat)
    requires v >= 100 && next < |d| && off + |d| < dst.Length && Digits(v) == d[..next + 1]
    requires forall k :: off + next < k < off + |d| ==> dst[k] == d[k - off]
    modifies dst
    ensures rest < v && 2 <= next && Digits(rest) == d[..next - 1] && dst[off + |d|] == old(dst[off + |d|])
    ensures forall k :: 0 <= k < off ==> dst[k] == old(dst[k])
    ensures forall k :: off + next - 2 < k < off + |d| ==> dst[k] == d[k - off]
  {
    var tens, ones;
    tens, ones, rest := TakePair(v, d[..next + 1]);
    assert d[..next + 1][..next - 1] == d[..next - 1];
    dst[off + next] := ones;
    dst[off + next - 1] := tens;
  }

  /** The digit loop: fills `dst[off..off + length]` from the right, two digits at a time. */
  method WriteDigits(dst: array<byte>, off: nat, length: nat, value: nat)
    requires length == |Digits(value)| && off + length < dst.Length
    modifies dst
    ensures dst[off..off + length] == Digits(value)
    ensures dst[off + length] == old(dst[off + length])
    ensures forall k :: 0 <= k < off ==> dst[k] == old(dst[k])
  {
    ghost var d := Digits(value);
    DigitsCanonical(value);
    assert d[..length] == d;
    var next: int := length - 1;
    var v := value;
    while v >= 100
      invariant v >= 0 && 0 <= next < length && Digits(v) == d[..next + 1]
      invariant dst[off + length] == old(dst[off + length])
      invariant forall k :: 0 <= k < off ==> dst[k] == old(dst[k])
      invariant forall k :: off + next < k < off + length ==> dst[k] == d[k - off]
    {
      v := WritePair(dst, off, next, v, d);
      next := next - 2;
    }
    WriteLast(dst, off, v, d[..next + 1]);
  }

  /**
   * Writes the digits of `value` and a terminating zero into `dst[off..]`. A buffer without room for
   * both gets an empty string and the length 0.
   */
  method Uint64ToString(dst: array<byte>, off: nat, value: nat) returns (length: nat)
    requires off <= dst.Length && value <= UINT64_MAX
    modifies dst
    ensures forall k :: 0 <= k < off ==> dst[k] == old(dst[k])
    ensures |Digits(value)| < dst.Length - off ==>
      length == |Digits(value)| && dst[off..off + length] == Digits(value) && dst[off + length] == 0
    ensures |Digits(value)| >= dst.Length - off ==> length == 0 && (off < dst.Length ==> dst[off] == 0)
  {
    length := Digits10(value);
    if length >= dst.Length - off {
      if off < dst.Length {
        dst[off] := 0;
      }
      return 0;
    }
    dst[off + length] := 0;
    WriteDigits(dst, off, length, value);
  }

  /** As `Uint64ToString`, with a leading minus for negative values. */
  method Int64ToString(dst: array<byte>, svalue: int) returns (length: nat)
    requires IsInt64(svalue)
    modifies dst
    ensures |Text(svalue)| < dst.Length ==> length == |Text(svalue)| && dst[..length] == Text(svalue) && dst[length] == 0
    ensures |Text(svalue)| >= dst.Length ==> length == 0
  {
    var value: nat := 0;
    var negative := 0;
    DigitsCanonical(if svalue < 0 then -svalue else svalue);
    if svalue < 0 {
      value := if svalue != INT64_MIN then -svalue else INT64_MAX + 1;
      if dst.Length < 2 {
        if dst.Length > 0 {
          dst[0] := 0;
        }
        return 0;
      }
      negative := 1;
      dst[0] := MINUS;
    } else {
      value := svalue;
    }
    length := Uint64ToString(dst, negative, value);
    if length == 0 {
      return 0;
    }
    assert dst[..negative + length] == dst[..negative] + dst[negative..negative + length];
    length := length + negative;
  }

  /** The strings `ToInt64` accepts for `v`: its text, an explicit plus, and the two signed zeros. */
  predicate Denotes(s: bytes, v: int) {
    IsInt64(v) && (s == Text(v) || (v >= 0 && s == [PLUS] + Digits(v)) || (v == 0 && s == [MINUS, ZERO]))
  }

  /** The part of a numeral after its optional sign. */
  function Unsigned(s: bytes): bytes {
    if s != [] && (s[0] == PLUS || s[0] == MINUS) then s[1..] else s
  }

  function Negated(s: bytes): bool {
    s != [] && s[0] == MINUS
  }

  lemma DenotesIsGrammar(s: bytes, v: int)
    ensures Denotes(s, v) <==>
      IsInt64(v) && Canonical(Unsigned(s)) && v == (if Negated(s) then -Value(Unsigned(s)) else Value(Unsigned(s)))
  {
    var u := Unsigned(s);
    if Denotes(s, v) {
      var n := if v < 0 then -v else v;
      DigitsCanonical(n);
      ValueOfDigits(n);
      assert s == [MINUS] + Digits(n) || s == [PLUS] + Digits(n) || s == Digits(n) by {
        if v == 0 && s == [MINUS, ZERO] { assert s == [MINUS] + Digits(0); }
      }
      assert u == Digits(n);
    }
    if IsInt64(v) && Canonical(u) && v == (if Negated(s) then -Value(u) else Value(u)) {
      DigitsOfValue(u);
      assert Negated(s) ==> s == [MINUS] + u;
      assert s != u && !Negated(s) ==> s == [PLUS] + u;
      if Negated(s) && Value(u) == 0 { assert u == [ZERO]; assert s == [MINUS, ZERO]; }
    }
  }

  /** The integer a signed numeral denotes, if it has no redundant zero and fits in 64 bits. */
  function Numeral(s: bytes): Option<int> {
    var u := Unsigned(s);
    var v := if Negated(s) then -Value(u) else Value(u);
    if Canonical(u) && IsInt64(v) then Some(v) else None
  }

  lemma NumeralExact(s: bytes, v: int)
    ensures Numeral(s) == Some(v) <==> Denotes(s, v)
  {
    DenotesIsGrammar(s, v);
  }

  /** A prefix of digits that is already too large stays too large. */
  lemma Overflows(u: bytes, k: nat, max: nat)
    requires k <= |u| && AllDigits(u[..k]) && Value(u[..k]) > max
    ensures Canonical(u) ==> Value(u) > max
  {
    if Canonical(u) {
      ValueGrows(u[..k], u[k..]);
      assert u == u[..k] + u[k..];
    }
  }

  /** Whether appending `digit` to `magnitude` would exceed `max`, without computing the product. */
  method TooLarge(magnitude: nat, digit: nat, max: nat) returns (r: bool)
    requires digit <= max
    ensures r <==> magnitude * 10 + digit > max
  {
    r := magnitude > (max - digit) / 10;
  }

  /** The digit loop: the value of a canonical digit string, unless it exceeds `max`. */
  method ParseMagnitude(u: bytes, max: nat) returns (r: Option<int>)
    requires max >= 9
    ensures r.Some? <==> (|u| == 0 || Canonical(u)) && Value(u) <= max
    ensures r.Some? ==> r.value == Value(u)
  {
    var magnitude: nat := 0;
    var i := 0;
    while i < |u|
      invariant 0 <= i <= |u|
      invariant AllDigits(u[..i]) && magnitude == Value(u[..i]) <= max
      invariant i > 0 && u[0] == ZERO ==> |u| == 1
    {
      if u[i] == ZERO && i == 0 && |u| > 1 {
        return None;
      }
      if u[i] < ZERO || u[i] > ZERO + 9 {
        return None;
      }
      var digit := u[i] - ZERO;
      assert u[..i + 1] == u[..i] + [u[i]];
      ValueSnoc(u[..i], u[i]);
      var tooLarge := TooLarge(magnitude, digit, max);
      if tooLarge {
        Overflows(u, i + 1, max);
        return None;
      }
      magnitude := magnitude * 10 + digit;
      i := i + 1;
    }
    assert u[..i] == u;
    r := Some(magnitude);
  }

  /** Parses a signed decimal numeral; refuses redundant zeros and anything outside 64 bits. */
  method ToInt64(s: bytes) returns (r: Option<int>)
    ensures r == Numeral(s)
  {
    if |s| == 0 || |s| > 20 {
      TooLong(s);
      return None;
    }
    var hasSign := s[0] == PLUS || s[0] == MINUS;
    if hasSign && |s| == 1 {
      return None;
    }
    ValueNonNegative(if AllDigits(Unsigned(s)) then Unsigned(s) else []);
    var negative := s[0] == MINUS;
    var maxMagnitude := if negative then INT64_MAX + 1 else INT64_MAX;
    var magnitude := ParseMagnitude(if hasSign then s[1..] else s, maxMagnitude);
    if magnitude.None? {
      return None;
    }
    var value: int := if negative then -magnitude.value else magnitude.value;
    r := Some(value);
  }

  /** The empty string, and numerals of more than twenty characters, denote nothing. */
  lemma TooLong(s: bytes)
    requires |s| == 0 || |s| > 20
    ensures Numeral(s) == None
  {
    var u := Unsigned(s);
    if Numeral(s).Some? {
      DigitsOfValue(u);
      DigitCountBound(Value(u));
    }
  }

  lemma DigitCountBound(n: nat)
    requires n <= UINT64_MAX
    ensures |Digits(n)| <= 20
    ensures n <= INT64_MAX + 1 ==> |Digits(n)| <= 19
  {
    assert Digits10(n) == |Digits(n)|;
    if n >= 1_000_000_000_000 {
      assert Digits10(n) == 12 + Digits10(n / 1_000_000_000_000);
    }
  }

  /** The numerals that are the printed form of their value. */
  method ToCanonicalInt64(s: bytes) returns (r: Option<int>)
    ensures r == Integer(s)
  {
    if s == [] || s[0] == PLUS || s == [MINUS, ZERO] {
      NotCanonical(s);
      return None;
    }
    r := ToInt64(s);
    if r.Some? {
      NumeralExact(s, r.value);
    }
  }

  lemma NotCanonical(s: bytes)
    requires s == [] || s[0] == PLUS || s == [MINUS, ZERO]
    ensures Integer(s) == None
  {
    if Integer(s).Some? {
      var v := Integer(s).value;
      DigitsCanonical(if v < 0 then -v else v);
    }
  }

  /** The integer a string is stored as, if it is the printed form of a 64-bit integer. */
  function Integer(s: bytes): Option<int> {
    var n := Numeral(s);
    if n.Some? && s == Text(n.value) then n else None
  }

  /** `Integer` inverts `Text` on the 64-bit integers and is defined nowhere else. */
  lemma IntegerExact(s: bytes, v: int)
    ensures Integer(s) == Some(v) <==> IsInt64(v) && s == Text(v)
  {
    NumeralExact(s, v);
  }
}
