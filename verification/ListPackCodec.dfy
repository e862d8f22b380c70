/**
 * The byte encoding of listpack elements (memory/listpack.cpp): integers in six widths, strings in three, and
 * the length read backwards.
 */
module ListPackCodec {
  import opened Bytes
  import opened Decimal

  const EOF: byte := 0xff

  /** Strings are shorter than this: their length is decoded into a signed 32-bit integer. */
  const STRING_LIMIT: nat := 0x8000_0000

  // ----- numbers as bytes, the most significant first -----

  function Pow256(n: nat): (p: nat)
    ensures p >= 1
  {
    if n == 0 then 1 else 256 * Pow256(n - 1)
  }

  /** The low `n` bytes of a number. */
  function ToBytes(n: nat, v: nat): (s: bytes)
    ensures |s| == n
  {
    if n == 0 then [] else ToBytes(n - 1, v / 256) + [v % 256]
  }

  function FromBytes(s: bytes): nat {
    if s == [] then 0 else 256 * FromBytes(s[..|s| - 1]) + s[|s| - 1]
  }

  lemma {:induction false} FromToBytes(n: nat, v: nat)
    requires v < Pow256(n)
    ensures FromBytes(ToBytes(n, v)) == v
  {
    if n > 0 {
      var s := ToBytes(n, v);
      FromToBytes(n - 1, v / 256);
      assert s[..|s| - 1] == ToBytes(n - 1, v / 256);
    }
  }

  lemma Powers()
    ensures Pow256(1) == 0x100 && Pow256(2) == 0x1_0000 && Pow256(3) == 0x100_0000 && Pow256(4) == 0x1_0000_0000
    ensures Pow256(8) == 0x1_0000_0000_0000_0000
  {
    assert Pow256(5) == 0x100_0000_0000;
    assert Pow256(6) == 0x1_0000_0000_0000;
    assert Pow256(7) == 0x100_0000_0000_0000;
  }

  // ----- elements -----

  /** A negative number is kept as its two's complement in a field of size `m`. */
  function Wrap(v: int, m: nat): int {
    if v < 0 then v + m else v
  }

  /** Encodes an integer in the narrowest form that holds it. */
  function EncodeInteger(v: int): (b: bytes)
    requires IsInt64(v)
    ensures b != [] && b[0] != EOF
  {
    if 0 <= v <= 127 then [v]
    else if -4096 <= v <= 4095 then var u := Wrap(v, 0x2000); [0xc0 + u / 256, u % 256]
    else if -0x8000 <= v <= 0x7fff then [0xf1] + ToBytes(2, Wrap(v, 0x1_0000))
    else if -0x80_0000 <= v <= 0x7f_ffff then [0xf2] + ToBytes(3, Wrap(v, 0x100_0000))
    else if -0x8000_0000 <= v <= 0x7fff_ffff then [0xf3] + ToBytes(4, Wrap(v, 0x1_0000_0000))
    else [0xf4] + ToBytes(8, Wrap(v, 0x1_0000_0000_0000_0000))
  }

  function EncodeString(s: bytes): (b: bytes)
    requires |s| < STRING_LIMIT
    ensures b != [] && b[0] != EOF
  {
    if |s| <= 63 then [0x80 + |s|] + s
    else if |s| <= 4095 then [0xe0 + |s| / 256, |s| % 256] + s
    else [0xf0] + ToBytes(4, |s|) + s
  }

  /** An element is encoded as an integer if it is one in canonical form. */
  function Encode(s: bytes): (b: bytes)
    requires |s| < STRING_LIMIT
    ensures b != [] && b[0] != EOF
  {
    var v := Integer(s);
    if v.Some? then
      IntegerExact(s, v.value);
      EncodeInteger(v.value)
    else EncodeString(s)
  }

  /** The bytes an integer takes: one, two, three, four, five or nine, as few as hold it. */
  lemma IntegerSize(v: int)
    requires IsInt64(v)
    ensures var n := |EncodeInteger(v)|;
      && (n <= 1 <==> 0 <= v < 128) && (n <= 2 <==> -4096 <= v < 4096) && (n <= 3 <==> -0x8000 <= v < 0x8000)
      && (n <= 4 <==> -0x80_0000 <= v < 0x80_0000) && (n <= 5 <==> -0x8000_0000 <= v < 0x8000_0000)
      && n in {1, 2, 3, 4, 5, 9}
  {
  }

  /** And a string: its own, and one, two or five before them. */
  lemma StringSize(s: bytes)
    requires |s| < STRING_LIMIT
    ensures |EncodeString(s)| == |s| + if |s| < 64 then 1 else if |s| < 4096 then 2 else 5
  {
  }

  datatype Encoding = Uint7 | Str6 | Int13 | Str12 | Str32 | Int16 | Int24 | Int32 | Int64

  /** The form of the element that starts with a byte. */
  function EncodingOf(b: byte): Encoding {
    if b < 0x80 then Uint7
    else if b < 0xc0 then Str6
    else if b < 0xe0 then Int13
    else if b < 0xf0 then Str12
    else match b
      case 0xf1 => Int16
      case 0xf2 => Int24
      case 0xf3 => Int32
      case 0xf4 => Int64
      case _ => Str32
  }

  predicate IsString(e: Encoding) {
    e == Str6 || e == Str12 || e == Str32
  }

  /** The bytes before the text of a string, or of a whole integer. */
  function Width(e: Encoding): nat {
    match e
    case Uint7 => 1
    case Str6 => 1
    case Int13 => 2
    case Str12 => 2
    case Str32 => 5
    case Int16 => 3
    case Int24 => 4
    case Int32 => 5
    case Int64 => 9
  }

  /** The length of the string that starts at the front of `r`. */
  function StringLength(r: bytes): nat
    requires r != [] && |r| >= Width(EncodingOf(r[0]))
  {
    match EncodingOf(r[0])
    case Str6 => r[0] % 64
    case Str12 => (r[0] as int) % 16 * 256 + r[1]
    case _ => if |r| < 5 then 0 else FromBytes(r[1..5])
  }

  /** The length of the element that starts at the front of `r`. */
  function Backlen(r: bytes): nat
    requires r != [] && |r| >= Width(EncodingOf(r[0]))
  {
    var e := EncodingOf(r[0]);
    if IsString(e) then Width(e) + StringLength(r) else Width(e)
  }

  /** Reads a field as a signed number: from `negstart` on its two's complement. */
  function Signed(u: nat, negstart: nat, negmax: nat): int {
    if u >= negstart then -(negmax - u) - 1 else u
  }

  function IntegerAt(r: bytes): int
    requires r != [] && |r| >= Width(EncodingOf(r[0]))
  {
    match EncodingOf(r[0])
    case Uint7 => r[0]
    case Int13 => Signed((r[0] as int) % 32 * 256 + r[1], 0x1000, 0x1fff)
    case Int16 => Signed(FromBytes(r[1..3]), 0x8000, 0xffff)
    case Int24 => Signed(FromBytes(r[1..4]), 0x80_0000, 0xff_ffff)
    case Int32 => Signed(FromBytes(r[1..5]), 0x8000_0000, 0xffff_ffff)
    case Int64 => Signed(FromBytes(r[1..9]), 0x8000_0000_0000_0000, 0xffff_ffff_ffff_ffff)
    case _ => 0
  }

  /** The element at the front of `r`, as text. */
  function Decode(r: bytes): bytes
    requires r != [] && |r| >= Width(EncodingOf(r[0])) && |r| >= Backlen(r)
  {
    var e := EncodingOf(r[0]);
    if IsString(e) then r[Width(e)..Backlen(r)] else Text(IntegerAt(r))
  }

  // ----- the element codec is lossless -----

  lemma IntegerFields(v: int, rest: bytes)
    requires IsInt64(v)
    ensures var r := EncodeInteger(v) + rest; |r| >= Width(EncodingOf(r[0])) && !IsString(EncodingOf(r[0])) && Width(EncodingOf(r[0])) == |EncodeInteger(v)| && IntegerAt(r) == v
  {
    Powers();
    var b := EncodeInteger(v);
    var r := b + rest;
    assert r[0] == b[0];
    if 0 <= v <= 127 {
    } else if -4096 <= v <= 4095 {
      assert r[1] == b[1];
    } else if -0x8000 <= v <= 0x7fff {
      FieldBack(0xf1, 2, Wrap(v, 0x1_0000), rest);
    } else if -0x80_0000 <= v <= 0x7f_ffff {
      FieldBack(0xf2, 3, Wrap(v, 0x100_0000), rest);
    } else if -0x8000_0000 <= v <= 0x7fff_ffff {
      FieldBack(0xf3, 4, Wrap(v, 0x1_0000_0000), rest);
    } else {
      FieldBack(0xf4, 8, Wrap(v, 0x1_0000_0000_0000_0000), rest);
    }
  }

  lemma FieldBack(tag: byte, n: nat, u: nat, rest: bytes)
    requires u < Pow256(n)
    ensures var r := [tag] + ToBytes(n, u) + rest; |r| >= n + 1 && r[0] == tag && FromBytes(r[1..n + 1]) == u
  {
    var r := [tag] + ToBytes(n, u) + rest;
    assert r[1..n + 1] == ToBytes(n, u);
    FromToBytes(n, u);
  }

  lemma StringFields(s: bytes, rest: bytes)
    requires |s| < STRING_LIMIT
    ensures var r := EncodeString(s) + rest; |r| >= Width(EncodingOf(r[0])) && IsString(EncodingOf(r[0])) && Backlen(r) == |EncodeString(s)| && Decode(r) == s
  {
    Powers();
    var b := EncodeString(s);
    var r := b + rest;
    assert r[0] == b[0];
    if |s| <= 63 {
      assert r[1..1 + |s|] == s;
    } else if |s| <= 4095 {
      assert r[1] == b[1] && r[2..2 + |s|] == s;
    } else {
      FieldBack(0xf0, 4, |s|, s + rest);
      assert r == [0xf0] + ToBytes(4, |s|) + (s + rest);
      assert r[5..5 + |s|] == s;
    }
  }

  /** Every element decodes to itself, whatever follows it, and its length is read from its front. */
  lemma CodecLossless(s: bytes, rest: bytes)
    requires |s| < STRING_LIMIT
    ensures var r := Encode(s) + rest; |r| >= Width(EncodingOf(r[0])) && Backlen(r) == |Encode(s)| && Decode(r) == s
  {
    var v := Integer(s);
    if v.Some? {
      IntegerExact(s, v.value);
      IntegerFields(v.value, rest);
    } else {
      StringFields(s, rest);
    }
  }

  // ----- the length of an element, to be read backwards -----

  function Pow128(n: nat): (p: nat)
    ensures p >= 1
  {
    if n == 0 then 1 else 128 * Pow128(n - 1)
  }

  function BacklenBytes(n: nat): (k: nat)
    ensures 1 <= k <= 5
  {
    if n <= 0x7f then 1 else if n <= 0x3fff then 2 else if n <= 0x1f_ffff then 3 else if n <= 0xfff_ffff then 4 else 5
  }

  /** `k` groups of seven bits, the lowest first; all but the first byte have the high bit set. */
  function Groups(n: nat, k: nat, first: bool): (s: bytes)
    ensures |s| == k
  {
    if k == 0 then [] else [n % 128 + if first then 0 else 128] + Groups(n / 128, k - 1, false)
  }

  function EncodeBacklen(n: nat): (s: bytes)
    ensures 1 <= |s| <= 5
  {
    Groups(n, BacklenBytes(n), true)
  }

  /** Reads groups from the end of `p` back to the one without the high bit. */
  function DecodeBacklen(p: bytes, acc: nat): nat {
    if p == [] then acc
    else
      var b := p[|p| - 1];
      var more := acc * 128 + b % 128;
      if b < 128 then more else DecodeBacklen(p[..|p| - 1], more)
  }

  /** `acc` with `k` groups of seven zero bits appended. */
  function Shift(acc: nat, k: nat): nat {
    if k == 0 then acc else 128 * Shift(acc, k - 1)
  }

  lemma {:induction false} ShiftZero(k: nat)
    ensures Shift(0, k) == 0
  {
    if k > 0 {
      ShiftZero(k - 1);
    }
  }

  /** Taking the groups of a number off the end of `p` leaves the number to the accumulator. */
  lemma {:induction false} ReadGroups(p: bytes, n: nat, k: nat, acc: nat)
    requires n < Pow128(k)
    ensures DecodeBacklen(p + Groups(n, k, false), acc) == DecodeBacklen(p, Shift(acc, k) + n)
    decreases k
  {
    if k == 0 {
      assert p + Groups(n, k, false) == p;
    } else {
      var low := n % 128 + 128;
      assert p + Groups(n, k, false) == (p + [low]) + Groups(n / 128, k - 1, false);
      ReadGroups(p + [low], n / 128, k - 1, acc);
      assert (p + [low])[..|p|] == p;
    }
  }

  /** The length before the end of `p` is read back from its last byte. */
  lemma BacklenReads(p: bytes, n: nat)
    requires n < 0x8_0000_0000
    ensures DecodeBacklen(p + EncodeBacklen(n), 0) == n
  {
    var k := BacklenBytes(n);
    assert Pow128(4) == 0x1000_0000 && Pow128(3) == 0x20_0000;
    assert n / 128 < Pow128(k - 1);
    var low := n % 128;
    assert p + EncodeBacklen(n) == (p + [low]) + Groups(n / 128, k - 1, false);
    ReadGroups(p + [low], n / 128, k - 1, 0);
    ShiftZero(k - 1);
  }

  // ----- entries -----

  /** An element followed by its length. */
  function Entry(s: bytes): (b: bytes)
    requires |s| < STRING_LIMIT
    ensures |b| >= 2 && b[0] != EOF
  {
    Encode(s) + EncodeBacklen(|Encode(s)|)
  }

  /** An element takes at most five bytes more than its text, or nine. */
  lemma EncodeSize(s: bytes)
    requires |s| < STRING_LIMIT
    ensures 1 <= |Encode(s)| <= |s| + 9
  {
    var v := Integer(s);
    if v.Some? {
      IntegerExact(s, v.value);
    }
  }
}
