// The firmware's byte helpers over external (xdata) memory. Each address
// argument is an array together with a start offset; counts are the C
// `unsigned char`, so at most 255 bytes are touched per call.
module StringX {
  import opened Bytes

  /** Reference semantics of `memcmpx`: true at the first differing pair. */
  function MemCmp(x: seq<byte>, y: seq<byte>): bool
    requires |x| == |y|
  {
    if x == [] then false
    else if x[0] != y[0] then true
    else MemCmp(x[1..], y[1..])
  }

  /** Reference semantics of `memcmpx_ct`: the OR of all pairwise XORs, folded
      from the first pair to the last with no early exit. */
  function OrXor(x: seq<byte>, y: seq<byte>): byte
    requires |x| == |y|
  {
    if x == [] then 0
    else Or8(OrXor(x[..|x| - 1], y[..|x| - 1]), Xor8(x[|x| - 1], y[|x| - 1]))
  }

  function MemCmpCt(x: seq<byte>, y: seq<byte>): bool
    requires |x| == |y|
  {
    OrXor(x, y) != 0
  }

  /** The early-exit compare reports a difference exactly when the two
      regions differ. */
  lemma {:induction false} MemCmpMeansDiffer(x: seq<byte>, y: seq<byte>)
    requires |x| == |y|
    ensures MemCmp(x, y) <==> x != y
  {
    if x != [] {
      MemCmpMeansDiffer(x[1..], y[1..]);
      if x[0] == y[0] && x[1..] == y[1..] {
        assert x == [x[0]] + x[1..] && y == [y[0]] + y[1..];
      }
    }
  }

  /** The accumulated OR of XORs is zero exactly when the regions are equal. */
  lemma {:induction false} OrXorZeroIffEqual(x: seq<byte>, y: seq<byte>)
    requires |x| == |y|
    ensures OrXor(x, y) == 0 <==> x == y
  {
    if x != [] {
      var n := |x| - 1;
      OrXorZeroIffEqual(x[..n], y[..n]);
      Or8ZeroIff(OrXor(x[..n], y[..n]), Xor8(x[n], y[n]));
      Xor8ZeroIff(x[n], y[n]);
      if x[..n] == y[..n] && x[n] == y[n] {
        assert x == x[..n] + [x[n]] && y == y[..n] + [y[n]];
      }
      if x == y {
        assert x[..n] == y[..n];
      }
    }
  }

  /** `memcmpx` and `memcmpx_ct` give the same equal/unequal verdict on every
      pair of regions. */
  lemma MemCmpAgree(x: seq<byte>, y: seq<byte>)
    requires |x| == |y|
    ensures MemCmp(x, y) == MemCmpCt(x, y)
  {
    MemCmpMeansDiffer(x, y);
    OrXorZeroIffEqual(x, y);
  }

  /** `memcpyx`: copies `n` bytes upward from `src[s..]` to `dst[d..]`. */
  method MemCpyX(dst: array<byte>, d: nat, src: array<byte>, s: nat, n: byte)
    requires d + n <= dst.Length && s + n <= src.Length
    requires dst != src || d + n <= s || s + n <= d
    modifies dst
    ensures dst[d..d + n] == old(src[s..s + n])
    ensures dst[..d] == old(dst[..d]) && dst[d + n..] == old(dst[d + n..])
  {
    var k := 0;
    while k < n
      invariant 0 <= k <= n
      invariant dst[d..d + k] == old(src[s..s + k])
      invariant src[s..s + n] == old(src[s..s + n])
      invariant dst[..d] == old(dst[..d]) && dst[d + n..] == old(dst[d + n..])
    {
      dst[d + k] := src[s + k];
      k := k + 1;
    }
  }

  /** `memsetx`: writes `value` into `n` bytes from `dst[d]`. */
  method MemSetX(dst: array<byte>, d: nat, value: byte, n: byte)
    requires d + n <= dst.Length
    modifies dst
    ensures forall k :: d <= k < d + n ==> dst[k] == value
    ensures dst[..d] == old(dst[..d]) && dst[d + n..] == old(dst[d + n..])
  {
    var k := 0;
    while k < n
      invariant 0 <= k <= n
      invariant forall m :: d <= m < d + k ==> dst[m] == value
      invariant dst[..d] == old(dst[..d]) && dst[d + n..] == old(dst[d + n..])
    {
      dst[d + k] := value;
      k := k + 1;
    }
  }

  /** `memcmpx`: returns at the first differing pair; true (C 1) iff the
      regions differ. */
  method MemCmpX(a: array<byte>, i: nat, b: array<byte>, j: nat, n: byte) returns (differ: bool)
    requires i + n <= a.Length && j + n <= b.Length
    ensures differ <==> a[i..i + n] != b[j..j + n]
    ensures differ == MemCmp(a[i..i + n], b[j..j + n])
  {
    MemCmpMeansDiffer(a[i..i + n], b[j..j + n]);
    var k := 0;
    while k < n
      invariant 0 <= k <= n
      invariant a[i..i + k] == b[j..j + k]
    {
      if a[i + k] != b[j + k] {
        assert a[i..i + n][k] != b[j..j + n][k];
        return true;
      }
      assert a[i..i + k + 1] == a[i..i + k] + [a[i + k]];
      assert b[j..j + k + 1] == b[j..j + k] + [b[j + k]];
      k := k + 1;
    }
    return false;
  }

  /** `memcmpx_ct`: folds every pair into the accumulator before answering,
      so the time taken does not depend on where the regions differ. */
  method MemCmpXCt(a: array<byte>, i: nat, b: array<byte>, j: nat, n: byte) returns (differ: bool)
    requires i + n <= a.Length && j + n <= b.Length
    ensures differ == MemCmpCt(a[i..i + n], b[j..j + n])
    ensures differ <==> a[i..i + n] != b[j..j + n]
  {
    var acc: byte := 0;
    var k := 0;
    while k < n
      invariant 0 <= k <= n
      invariant acc == OrXor(a[i..i + k], b[j..j + k])
    {
      assert a[i..i + k + 1][..k] == a[i..i + k];
      assert b[j..j + k + 1][..k] == b[j..j + k];
      acc := Or8(acc, Xor8(a[i + k], b[j + k]));
      k := k + 1;
    }
    OrXorZeroIffEqual(a[i..i + n], b[j..j + n]);
    differ := acc != 0;
  }

  /** Index of the first NUL byte of `s`, when there is one. */
  function CStrLen(s: seq<byte>): (r: nat)
    requires exists k :: 0 <= k < |s| && s[k] == 0
    ensures r < |s| && s[r] == 0 && forall k :: 0 <= k < r ==> s[k] != 0
  {
    if s[0] == 0 then 0 else CStrLen(s[1..]) + 1
  }

  /** `strcpylenx`: copies the string at `src` to `dst[d..]` up to and
      including its NUL and returns the NUL's index. The 8-bit counter means
      the NUL must lie within the first 256 bytes for the C loop to end. */
  method StrCpyLenX(dst: array<byte>, d: nat, src: array<byte>) returns (l: byte)
    requires dst != src
    requires exists k :: 0 <= k < src.Length && k < 0x100 && src[k] == 0
    requires d + CStrLen(src[..]) < dst.Length
    modifies dst
    ensures l == CStrLen(old(src[..]))
    ensures dst[d..d + l + 1] == src[..l + 1]
    ensures dst[..d] == old(dst[..d]) && dst[d + l + 1..] == old(dst[d + l + 1..])
  {
    ghost var n := CStrLen(src[..]);
    assert n < 0x100 by {
      var k :| 0 <= k < src.Length && k < 0x100 && src[k] == 0;
      assert src[..][k] == 0;
    }
    var k := 0;
    while true
      invariant 0 <= k <= n
      invariant dst[d..d + k] == src[..k]
      invariant dst[..d] == old(dst[..d]) && dst[d + k..] == old(dst[d + k..])
      decreases n - k
    {
      assert src[..][k] == src[k];
      dst[d + k] := src[k];
      assert dst[d..d + k + 1] == src[..k + 1];
      if src[k] == 0 {
        l := k;
        return;
      }
      k := k + 1;
    }
  }
}
