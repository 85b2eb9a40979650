// Command-line argument converters of the host tools: a hardware id typed in
// hexadecimal, and an AES key typed as hex text.
module Arguments {
  import opened Bytes

  /** What a converter raises: `int()`'s ValueError passes through
      argparse's converter untouched; ArgumentTypeError is the converter's
      own rejection. */
  datatype ArgError = ValueError | ArgumentTypeError

  predicate AllHex(d: string)
  {
    forall k :: 0 <= k < |d| ==> IsHexDigit(d[k])
  }

  /** The value of a string of hex digits, most significant first. */
  function HexDigitsValue(d: string): nat
    requires AllHex(d)
  {
    if d == [] then 0
    else HexDigitsValue(d[..|d| - 1]) * 16 + HexDigitValue(d[|d| - 1])
  }

  /** Python 2 `int(text, 16)`: an optional sign, an optional `0x`/`0X`
      prefix, then at least one hex digit; None where it raises ValueError. */
  function ParseHexInt(t: string): (r: Option<int>)
  {
    var neg := |t| > 0 && t[0] == '-';
    var u := if |t| > 0 && (t[0] == '-' || t[0] == '+') then t[1..] else t;
    var d := if |u| >= 2 && u[0] == '0' && (u[1] == 'x' || u[1] == 'X') then u[2..] else u;
    if d != [] && AllHex(d) then Some(if neg then -(HexDigitsValue(d) as int) else HexDigitsValue(d))
    else None
  }

  /** `hwid_type`: a hex hardware id, refusing 0x0000 and the broadcast id
      0xFFFF and anything outside them. */
  function HwidType(t: string): (r: Result<int, ArgError>)
    ensures r.Ok? <==> ParseHexInt(t).Some? && 0 < ParseHexInt(t).value < 0xFFFF
    ensures r.Ok? ==> r.value == ParseHexInt(t).value && 0 < r.value < 0xFFFF
    ensures r == Raise(ValueError) <==> ParseHexInt(t).None?
  {
    match ParseHexInt(t)
    case None => Raise(ValueError)
    case Some(h) => if h <= 0x0000 || h >= 0xFFFF then Raise(ArgumentTypeError) else Ok(h)
  }

  /** The four upper-case digits of a byte pair read back as their value. */
  lemma {:induction false} Hex4Value(v: u16)
    ensures AllHex(Hex4(v)) && HexDigitsValue(Hex4(v)) == v
  {
    var hi, lo := v / 0x100, v % 0x100;
    UpperHexDigitValue(hi / 16);
    UpperHexDigitValue(hi % 16);
    UpperHexDigitValue(lo / 16);
    UpperHexDigitValue(lo % 16);
    var d := Hex4(v);
    var c0, c1, c2, c3 := UpperHexDigit(hi / 16), UpperHexDigit(hi % 16), UpperHexDigit(lo / 16), UpperHexDigit(lo % 16);
    assert d == [c0, c1, c2, c3];
    assert [c0, c1, c2, c3][..3] == [c0, c1, c2];
    assert [c0, c1, c2][..2] == [c0, c1];
    assert [c0, c1][..1] == [c0];
    assert [c0][..0] == [];
    assert HexDigitsValue([c0]) == hi / 16;
    assert HexDigitsValue([c0, c1]) == hi;
    assert HexDigitsValue([c0, c1, c2]) == hi * 16 + lo / 16;
    assert (hi * 16 + lo / 16) * 16 + lo % 16 == hi * 256 + lo;
  }

  /** An id printed as four hex digits (`'{:04X}'`) is accepted back as
      itself exactly when it is neither 0x0000 nor 0xFFFF. */
  lemma HwidTypeOfHex4(v: u16)
    ensures HwidType(Hex4(v)) == if 0 < v < 0xFFFF then Ok(v as int) else Raise(ArgumentTypeError)
  {
    Hex4Value(v);
    var d := Hex4(v);
    assert d[0] != '-' && d[0] != '+' && d[1] != 'x' && d[1] != 'X' by {
      Hex2ReadsBack(v / 0x100);
    }
  }

  /** A `0x`-prefixed id is read like the bare digits. */
  lemma HwidTypeHexPrefix(d: string)
    requires d != [] && AllHex(d)
    ensures HwidType("0x" + d) == HwidType(d)
  {
    assert ("0x" + d)[2..] == d;
    if |d| >= 2 && d[0] == '0' {
      assert IsHexDigit(d[1]);
    }
  }

  /** A negative id is refused. */
  lemma HwidTypeNegative(d: string)
    requires d != [] && AllHex(d) && HexDigitsValue(d) > 0
    ensures HwidType("-" + d) == Raise(ArgumentTypeError)
  {
    assert ("-" + d)[1..] == d;
    if |d| >= 2 && d[0] == '0' {
      assert IsHexDigit(d[1]);
    }
  }

  /** `aes_key_option`: the bytes of a hex key, which must be exactly
      `length` bytes long. */
  function AesKeyOption(hexKey: string, length: nat := 16): (r: Result<seq<byte>, ArgError>)
    ensures r.Ok? <==> Unhexlify(hexKey).Some? && |Unhexlify(hexKey).value| == length
    ensures r.Ok? ==> r.value == Unhexlify(hexKey).value && |r.value| == length
    ensures r.Raise? ==> r.error == ArgumentTypeError
    ensures |hexKey| != 2 * length ==> r == Raise(ArgumentTypeError)
  {
    match Unhexlify(hexKey)
    case None => Raise(ArgumentTypeError)
    case Some(key) => if |key| != length then Raise(ArgumentTypeError) else Ok(key)
  }

  /** A key written out with `hexlify` is read back as itself when it has
      the required length, and refused otherwise. */
  lemma AesKeyRoundTrip(key: seq<byte>, length: nat)
    ensures AesKeyOption(Hexlify(key), length) == if |key| == length then Ok(key) else Raise(ArgumentTypeError)
  {
    UnhexlifyHexlify(key);
  }
}
