// Fixed-width integers, byte-order packing, hexadecimal text and Python
// slice semantics shared by the firmware and host-tool models.
module Bytes {

  type byte = x: int | 0 <= x < 0x100
  type u16 = x: int | 0 <= x < 0x1_0000
  type u32 = x: int | 0 <= x < 0x1_0000_0000

  /** Unsigned 16-bit wrap-around (C `uint16_t` arithmetic). */
  function Wrap16(x: int): (r: u16)
    ensures 0 <= x < 0x1_0000 ==> r == x
  {
    x % 0x1_0000
  }

  /** Unsigned 32-bit wrap-around (C `uint32_t` arithmetic). */
  function Wrap32(x: int): (r: u32)
    ensures 0 <= x < 0x1_0000_0000 ==> r == x
  {
    x % 0x1_0000_0000
  }

  /** Wrapping an intermediate result does not change the wrapped total. */
  lemma Wrap32Plus(x: int, y: int)
    ensures Wrap32(Wrap32(x) + y) == Wrap32(x + y)
  {
    var q := x / 0x1_0000_0000;
    assert x == q * 0x1_0000_0000 + Wrap32(x);
    assert x + y == (Wrap32(x) + y) + q * 0x1_0000_0000;
  }

  lemma Wrap32Minus(x: int, y: int)
    ensures Wrap32(Wrap32(x) - y) == Wrap32(x - y)
  {
    Wrap32Plus(x, -y);
  }

  // ---------------------------------------------------------------------
  // Byte order

  /** Little-endian encoding of a 16-bit value (`struct.pack('<H')`, and the
      in-memory layout of `uint16_t` on the 8051). */
  function LE16(v: u16): (r: seq<byte>)
    ensures |r| == 2
  {
    [v % 0x100, v / 0x100]
  }

  function GetLE16(s: seq<byte>, i: nat): u16
    requires i + 2 <= |s|
  {
    s[i] as int + 0x100 * (s[i + 1] as int)
  }

  /** Big-endian encoding of a 16-bit value (`struct.pack('>H')`). */
  function BE16(v: u16): (r: seq<byte>)
    ensures |r| == 2
  {
    [v / 0x100, v % 0x100]
  }

  function GetBE16(s: seq<byte>, i: nat): u16
    requires i + 2 <= |s|
  {
    0x100 * (s[i] as int) + s[i + 1] as int
  }

  function LE32(v: u32): (r: seq<byte>)
    ensures |r| == 4
  {
    LE16(v % 0x1_0000) + LE16(v / 0x1_0000)
  }

  function GetLE32(s: seq<byte>, i: nat): u32
    requires i + 4 <= |s|
  {
    GetLE16(s, i) + 0x1_0000 * GetLE16(s, i + 2)
  }

  lemma LE16RoundTrip(v: u16)
    ensures GetLE16(LE16(v), 0) == v
  {
  }

  lemma LE16Injective(s: seq<byte>, i: nat)
    requires i + 2 <= |s|
    ensures LE16(GetLE16(s, i)) == s[i..i + 2]
  {
  }

  lemma BE16RoundTrip(v: u16)
    ensures GetBE16(BE16(v), 0) == v
  {
  }

  lemma LE32RoundTrip(v: u32)
    ensures GetLE32(LE32(v), 0) == v
  {
    LE16RoundTrip(v % 0x1_0000);
    LE16RoundTrip(v / 0x1_0000);
  }

  /** Four bytes written by `LE32` anywhere in a sequence read back there. */
  lemma GetLE32Of(s: seq<byte>, i: nat, v: u32)
    requires i + 4 <= |s| && s[i..i + 4] == LE32(v)
    ensures GetLE32(s, i) == v
  {
    var w := LE32(v);
    assert s[i] == w[0] && s[i + 1] == w[1] && s[i + 2] == w[2] && s[i + 3] == w[3];
    LE32RoundTrip(v);
  }

  // ---------------------------------------------------------------------
  // Bit operations on bytes

  function Pow2(w: nat): (r: nat)
    ensures r >= 1
  {
    if w == 0 then 1 else 2 * Pow2(w - 1)
  }

  /** Bitwise OR of the low `w` bits of `a` and `b`. */
  function BitOr(a: nat, b: nat, w: nat): (r: nat)
    ensures r < Pow2(w)
  {
    if w == 0 then 0
    else (if a % 2 == 1 || b % 2 == 1 then 1 else 0) + 2 * BitOr(a / 2, b / 2, w - 1)
  }

  /** Bitwise XOR of the low `w` bits of `a` and `b`. */
  function BitXor(a: nat, b: nat, w: nat): (r: nat)
    ensures r < Pow2(w)
  {
    if w == 0 then 0
    else (if a % 2 != b % 2 then 1 else 0) + 2 * BitXor(a / 2, b / 2, w - 1)
  }

  lemma Pow2Of8()
    ensures Pow2(8) == 0x100
  {
  }

  function Or8(a: byte, b: byte): byte
  {
    Pow2Of8();
    BitOr(a, b, 8)
  }

  function Xor8(a: byte, b: byte): byte
  {
    Pow2Of8();
    BitXor(a, b, 8)
  }

  lemma {:induction false} BitOrZeroIff(a: nat, b: nat, w: nat)
    requires a < Pow2(w) && b < Pow2(w)
    ensures BitOr(a, b, w) == 0 <==> a == 0 && b == 0
  {
    if w > 0 {
      BitOrZeroIff(a / 2, b / 2, w - 1);
    }
  }

  lemma {:induction false} BitXorZeroIff(a: nat, b: nat, w: nat)
    requires a < Pow2(w) && b < Pow2(w)
    ensures BitXor(a, b, w) == 0 <==> a == b
  {
    if w > 0 {
      BitXorZeroIff(a / 2, b / 2, w - 1);
    }
  }

  lemma Or8ZeroIff(p: byte, q: byte)
    ensures Or8(p, q) == 0 <==> p == 0 && q == 0
  {
    Pow2Of8();
    BitOrZeroIff(p, q, 8);
  }

  lemma Xor8ZeroIff(p: byte, q: byte)
    ensures Xor8(p, q) == 0 <==> p == q
  {
    Pow2Of8();
    BitXorZeroIff(p, q, 8);
  }

  /** Flipping all `w` low bits of a `w`-bit value subtracts it from the
      all-ones value. */
  lemma {:induction false} BitXorAllOnes(a: nat, w: nat)
    requires a < Pow2(w)
    ensures BitXor(a, Pow2(w) - 1, w) == Pow2(w) - 1 - a
  {
    if w > 0 {
      var p := Pow2(w - 1);
      assert Pow2(w) - 1 == 2 * (p - 1) + 1;
      assert (Pow2(w) - 1) % 2 == 1 && (Pow2(w) - 1) / 2 == p - 1;
      assert a == 2 * (a / 2) + a % 2 && a / 2 < p;
      BitXorAllOnes(a / 2, w - 1);
    }
  }

  lemma Xor8AllOnes(a: byte)
    ensures Xor8(a, 0xFF) == 0xFF - a
  {
    Pow2Of8();
    BitXorAllOnes(a, 8);
  }

  /** The sum of a sequence of bytes, as an unbounded integer. */
  function Sum(s: seq<byte>): nat
  {
    if s == [] then 0 else Sum(s[..|s| - 1]) + s[|s| - 1]
  }

  // ---------------------------------------------------------------------
  // Hexadecimal text

  predicate IsHexDigit(c: char)
  {
    ('0' <= c <= '9') || ('a' <= c <= 'f') || ('A' <= c <= 'F')
  }

  function HexDigitValue(c: char): (r: nat)
    requires IsHexDigit(c)
    ensures r < 16
  {
    if '0' <= c <= '9' then (c as int) - ('0' as int)
    else if 'a' <= c <= 'f' then (c as int) - ('a' as int) + 10
    else (c as int) - ('A' as int) + 10
  }

  /** Upper-case hexadecimal digit (Python `'{:X}'`). */
  function UpperHexDigit(d: nat): char
    requires d < 16
  {
    if d < 10 then ('0' as int + d) as char else ('A' as int + d - 10) as char
  }

  /** The upper-case digit of `d` reads back as `d`. (Kept out of the
      function's contract: the digit tests are case splits that every
      proof mentioning formatted text would otherwise carry.) */
  lemma UpperHexDigitValue(d: nat)
    requires d < 16
    ensures IsHexDigit(UpperHexDigit(d)) && HexDigitValue(UpperHexDigit(d)) == d
  {
  }

  /** Lower-case hexadecimal digit (`binascii.hexlify`). */
  function LowerHexDigit(d: nat): (c: char)
    requires d < 16
    ensures IsHexDigit(c) && HexDigitValue(c) == d
  {
    if d < 10 then ('0' as int + d) as char else ('a' as int + d - 10) as char
  }

  /** Two upper-case hex digits of a byte (`'{:02X}'`). */
  function Hex2(b: byte): (r: string)
    ensures |r| == 2
  {
    [UpperHexDigit(b / 16), UpperHexDigit(b % 16)]
  }

  /** Two formatted digits read back as the byte they format. */
  lemma Hex2ReadsBack(b: byte)
    ensures IsHexDigit(Hex2(b)[0]) && IsHexDigit(Hex2(b)[1])
    ensures HexByteAt(Hex2(b), 0) == Some(b)
  {
    UpperHexDigitValue(b / 16);
    UpperHexDigitValue(b % 16);
  }

  /** Four upper-case hex digits of a 16-bit value (`'{:04X}'`). */
  function Hex4(v: u16): (r: string)
    ensures |r| == 4
  {
    Hex2(v / 0x100) + Hex2(v % 0x100)
  }

  /** `binascii.hexlify`: two lower-case digits per byte. */
  function Hexlify(s: seq<byte>): (r: string)
    ensures |r| == 2 * |s|
  {
    if s == [] then []
    else [LowerHexDigit(s[0] / 16), LowerHexDigit(s[0] % 16)] + Hexlify(s[1..])
  }

  /** `hexlify(...).upper()`: two upper-case digits per byte. */
  function HexlifyUpper(s: seq<byte>): (r: string)
    ensures |r| == 2 * |s|
  {
    if s == [] then [] else Hex2(s[0]) + HexlifyUpper(s[1..])
  }

  lemma HexlifyUpperCons(x: byte, s: seq<byte>)
    ensures HexlifyUpper([x] + s) == Hex2(x) + HexlifyUpper(s)
  {
    assert ([x] + s)[1..] == s;
  }

  lemma {:induction false} HexlifyUpperAppend(s: seq<byte>, t: seq<byte>)
    ensures HexlifyUpper(s + t) == HexlifyUpper(s) + HexlifyUpper(t)
  {
    if s != [] {
      assert (s + t)[1..] == s[1..] + t;
      HexlifyUpperAppend(s[1..], t);
    } else {
      assert s + t == t;
    }
  }

  /** Every character `HexlifyUpper` produces is a hex digit. */
  lemma {:induction false} HexlifyUpperDigits(s: seq<byte>)
    ensures forall k :: 0 <= k < |HexlifyUpper(s)| ==> IsHexDigit(HexlifyUpper(s)[k])
  {
    if s != [] {
      Hex2ReadsBack(s[0]);
      HexlifyUpperDigits(s[1..]);
      var h, t := Hex2(s[0]), HexlifyUpper(s[1..]);
      assert HexlifyUpper(s) == h + t;
      forall k | 0 <= k < |h + t|
        ensures IsHexDigit((h + t)[k])
      {
        if k >= 2 {
          assert (h + t)[k] == t[k - 2];
        }
      }
    }
  }

  /** The value of the two hex digits at `t[i]`, `t[i+1]`, if both are digits. */
  function HexByteAt(t: string, i: nat): (r: Option<byte>)
    ensures r.Some? <==> i + 2 <= |t| && IsHexDigit(t[i]) && IsHexDigit(t[i + 1])
  {
    if i + 2 <= |t| && IsHexDigit(t[i]) && IsHexDigit(t[i + 1])
    then Some(16 * HexDigitValue(t[i]) + HexDigitValue(t[i + 1]))
    else None
  }

  /** `binascii.unhexlify`: None where Python raises (odd length or a
      non-hex digit). */
  function Unhexlify(t: string): (r: Option<seq<byte>>)
    ensures r.Some? ==> |r.value| * 2 == |t|
    decreases |t|
  {
    if t == [] then Some([])
    else if |t| == 1 then None
    else match HexByteAt(t, 0)
      case None => None
      case Some(b) =>
        match Unhexlify(t[2..])
        case None => None
        case Some(rest) => Some([b] + rest)
  }

  lemma {:induction false} UnhexlifyHexlify(s: seq<byte>)
    ensures Unhexlify(Hexlify(s)) == Some(s)
  {
    if s != [] {
      var t := Hexlify(s);
      assert t[2..] == Hexlify(s[1..]);
      UnhexlifyHexlify(s[1..]);
      assert [s[0]] + s[1..] == s;
    }
  }

  // ---------------------------------------------------------------------
  // Python slices on non-negative bounds

  /** `s[lo:hi]` with Python's clamping of both bounds to the length. */
  function PySlice<T>(s: seq<T>, lo: nat, hi: nat): (r: seq<T>)
    ensures lo <= hi <= |s| ==> r == s[lo..hi]
    ensures |r| <= |s|
  {
    var a := if lo <= |s| then lo else |s|;
    var b := if hi <= |s| then hi else |s|;
    if b <= a then [] else s[a..b]
  }

  /** `s[lo:hi] = v` on a Python list/bytearray: the clamped slice is replaced,
      so the result is longer or shorter when `|v|` differs from its size. */
  function PySliceAssign<T>(s: seq<T>, lo: nat, hi: nat, v: seq<T>): (r: seq<T>)
    ensures lo <= hi <= |s| ==> r == s[..lo] + v + s[hi..]
    ensures lo <= hi <= |s| && |v| == hi - lo ==>
              |r| == |s| && r[lo..hi] == v &&
              (forall k :: 0 <= k < |s| && !(lo <= k < hi) ==> r[k] == s[k])
  {
    var a := if lo <= |s| then lo else |s|;
    var b0 := if hi <= |s| then hi else |s|;
    var b := if b0 < a then a else b0;
    s[..a] + v + s[b..]
  }

  /** `s` with the elements from `at` on replaced by `v`. */
  function Splice(s: seq<byte>, at: nat, v: seq<byte>): (r: seq<byte>)
    requires at + |v| <= |s|
    ensures |r| == |s| && r[at..at + |v|] == v
  {
    s[..at] + v + s[at + |v|..]
  }

  /** Each byte of a splice comes from the inserted run or the original. */
  lemma SpliceIndex(s: seq<byte>, at: nat, v: seq<byte>, k: nat)
    requires at + |v| <= |s| && k < |s|
    ensures Splice(s, at, v)[k] == if at <= k < at + |v| then v[k - at] else s[k]
  {
  }

  /** A prefix made of two adjacent runs is their concatenation. */
  lemma PrefixOfRuns(a: seq<byte>, i: nat, j: nat, x: seq<byte>, y: seq<byte>)
    requires i <= j <= |a| && a[..i] == x && a[i..j] == y
    ensures a[..j] == x + y
  {
    assert a[..j] == a[..i] + a[i..j];
  }

  datatype Option<T> = None | Some(value: T)

  /** A value, or the exception a Python function raises instead. */
  datatype Result<T, E> = Ok(value: T) | Raise(error: E)
}
