// The host's command translator: command text ("lst reboot 10") to the
// bytes of a radio/serial command message and back. The tool is Python 2, so
// text and raw bytes are both `str`; here a `Str` is a sequence of 8-bit
// characters and `TextBytes`/`BytesText` convert it to and from bytes.
module Translator {
  import opened Bytes

  /** One character of a Python 2 `str`. */
  type bchar = c: char | c as int < 0x100

  type Str = seq<bchar>

  /** The exceptions the translator raises. */
  datatype Error =
    | MinTooLow | MaxTooHigh            // IntegerArgument constructor
    | NotALiteral                       // literal_eval/int of the token fails
    | ValueTooLarge | ValueTooSmall     // IntegerArgument.to_bytes
    | StructError                       // struct.pack/unpack out of range
    | NotEnoughBytes                    // from_bytes on a short message
    | InvalidPad                        // HexArgument constructor
    | NotHex                            // unhexlify fails
    | HexTooLong | HexTooShort          // HexArgument.to_bytes
    | MissingArgument | UnparsedExtras  // Command.tokens_to_bytes
    | CommandTooShort | UnknownSystem   // Translator.bytes_from_string
    | UnknownCommand                    // CMD_STRING_MAP lookup (KeyError)

  function TextBytes(t: Str): (b: seq<byte>)
    ensures |b| == |t| && forall i :: 0 <= i < |t| ==> b[i] == t[i] as int
  {
    seq(|t|, i requires 0 <= i < |t| => t[i] as int)
  }

  function BytesText(b: seq<byte>): (t: Str)
    ensures |t| == |b| && forall i :: 0 <= i < |b| ==> t[i] as int == b[i]
  {
    seq(|b|, i requires 0 <= i < |b| => b[i] as char)
  }

  /** Text and bytes convert into each other without loss. */
  lemma TextBytesRoundTrip(t: Str, b: seq<byte>)
    ensures BytesText(TextBytes(t)) == t
    ensures TextBytes(BytesText(b)) == b
  {
    var t' := BytesText(TextBytes(t));
    assert forall i | 0 <= i < |t| :: t'[i] as int == t[i] as int;
  }

  /** `binascii.hexlify` produces 8-bit text. */
  lemma {:induction false} HexlifyIsText(b: seq<byte>)
    ensures forall i :: 0 <= i < |Hexlify(b)| ==> Hexlify(b)[i] as int < 0x100
  {
    if b != [] {
      HexlifyIsText(b[1..]);
      var h := [LowerHexDigit(b[0] / 16), LowerHexDigit(b[0] % 16)];
      assert Hexlify(b) == h + Hexlify(b[1..]);
      forall i | 0 <= i < |Hexlify(b)|
        ensures Hexlify(b)[i] as int < 0x100
      {
        if i >= 2 {
          assert Hexlify(b)[i] == Hexlify(b[1..])[i - 2];
        }
      }
    }
  }

  function HexText(b: seq<byte>): (t: Str)
    ensures t == Hexlify(b)
  {
    HexlifyIsText(b);
    Hexlify(b)
  }

  // ---------------------------------------------------------------------
  // Integer literals and their decimal text

  function DigitValue(c: char): nat
    requires '0' <= c <= '9'
  {
    c as int - '0' as int
  }

  predicate AllDigits(s: Str)
  {
    forall i :: 0 <= i < |s| ==> '0' <= s[i] <= '9'
  }

  function DecimalValue(s: Str): nat
    requires AllDigits(s)
  {
    if s == [] then 0 else 10 * DecimalValue(s[..|s| - 1]) + DigitValue(s[|s| - 1])
  }

  function HexValue(s: Str): nat
    requires forall i :: 0 <= i < |s| ==> IsHexDigit(s[i])
  {
    if s == [] then 0 else 16 * HexValue(s[..|s| - 1]) + HexDigitValue(s[|s| - 1])
  }

  /** The integer literals `int(literal_eval(token))` is modelled on: an
      optional minus sign, then `0`, a decimal numeral without a leading
      zero, or `0x`/`0X` and hexadecimal digits. Any other token raises. */
  function ParseLiteral(t: Str): (r: Option<int>)
  {
    if |t| >= 1 && t[0] == '-' then
      match ParseMagnitude(t[1..])
      case Some(m) => Some(-(m as int))
      case None => None
    else ParseMagnitude(t)
  }

  function ParseMagnitude(t: Str): Option<nat>
  {
    if |t| >= 3 && t[0] == '0' && (t[1] == 'x' || t[1] == 'X')
       && (forall i :: 2 <= i < |t| ==> IsHexDigit(t[i]))
    then Some(HexValue(t[2..]))
    else if t == "0" then Some(0)
    else if |t| >= 1 && '1' <= t[0] <= '9' && AllDigits(t) then Some(DecimalValue(t))
    else None
  }

  function DigitChar(d: nat): (c: bchar)
    requires d < 10
    ensures '0' <= c <= '9' && DigitValue(c) == d
  {
    ('0' as int + d) as char
  }

  /** The decimal numeral of `n`, without leading zeros. */
  function Digits(n: nat): (s: Str)
    ensures |s| >= 1 && AllDigits(s)
    ensures n > 0 ==> s[0] != '0'
  {
    if n < 10 then [DigitChar(n)] else Digits(n / 10) + [DigitChar(n % 10)]
  }

  /** Python's `str` of an integer. */
  function DecimalText(v: int): Str
  {
    if v < 0 then "-" + Digits(-v) else Digits(v)
  }

  lemma {:induction false} DigitsValue(n: nat)
    ensures DecimalValue(Digits(n)) == n
  {
    if n >= 10 {
      DigitsValue(n / 10);
      var s := Digits(n);
      assert s[..|s| - 1] == Digits(n / 10);
    }
  }

  /** Printing an integer and evaluating the text gives the integer back. */
  lemma DecimalTextParses(v: int)
    ensures ParseLiteral(DecimalText(v)) == Some(v)
  {
    if v < 0 {
      DigitsParse(-v);
      ParseNegated(Digits(-v), -v);
    } else {
      DigitsParse(v);
      ParseUnsigned(Digits(v), v);
    }
  }

  /** A minus sign in front of a magnitude negates it. */
  lemma ParseNegated(d: Str, m: nat)
    requires ParseMagnitude(d) == Some(m)
    ensures ParseLiteral("-" + d) == Some(-(m as int))
  {
    assert ("-" + d)[1..] == d;
  }

  /** Text that does not start with a minus sign is a magnitude. */
  lemma ParseUnsigned(d: Str, m: nat)
    requires |d| >= 1 && d[0] != '-' && ParseMagnitude(d) == Some(m)
    ensures ParseLiteral(d) == Some(m)
  {
  }

  /** A numeral printed by `str` reads back as its magnitude. */
  lemma DigitsParse(m: nat)
    ensures ParseMagnitude(Digits(m)) == Some(m)
  {
    DigitsValue(m);
    var d := Digits(m);
    assert |d| >= 3 ==> d[0] != '0';
  }

  // ---------------------------------------------------------------------
  // Fixed-width integers (struct codes <b <B <h <H <l <L)

  datatype IntKind = Int8 | UInt8 | Int16 | UInt16 | Int32 | UInt32

  function TypeMin(k: IntKind): int
  {
    match k
    case Int8 => -0x80
    case Int16 => -0x8000
    case Int32 => -0x8000_0000
    case _ => 0
  }

  function TypeMax(k: IntKind): int
  {
    match k
    case Int8 => 0x7F
    case UInt8 => 0xFF
    case Int16 => 0x7FFF
    case UInt16 => 0xFFFF
    case Int32 => 0x7FFF_FFFF
    case UInt32 => 0xFFFF_FFFF
  }

  function Width(k: IntKind): nat
  {
    match k
    case Int8 | UInt8 => 1
    case Int16 | UInt16 => 2
    case Int32 | UInt32 => 4
  }

  predicate IsSigned(k: IntKind)
  {
    k == Int8 || k == Int16 || k == Int32
  }

  function Pow256(n: nat): (r: nat)
    ensures r >= 1
  {
    if n == 0 then 1 else 0x100 * Pow256(n - 1)
  }

  /** Little-endian two's complement of `v` in `n` bytes. */
  function PackLE(v: int, n: nat): (r: seq<byte>)
    ensures |r| == n
    decreases n
  {
    if n == 0 then [] else [v % 0x100] + PackLE(v / 0x100, n - 1)
  }

  function UnpackLE(b: seq<byte>): (r: nat)
    ensures r < Pow256(|b|)
  {
    if b == [] then 0 else b[0] + 0x100 * UnpackLE(b[1..])
  }

  lemma DivModUnique(v: int, d: int, q: int, r: int)
    requires d > 0 && 0 <= r < d && v == d * q + r
    ensures v / d == q && v % d == r
  {
    var q', r' := v / d, v % d;
    var e := q - q';
    assert d * q == d * q' + d * e;
    if e >= 1 {
      assert false;
    } else if e <= -1 {
      assert false;
    }
  }

  lemma {:induction false} UnpackPackLE(v: int, n: nat)
    ensures UnpackLE(PackLE(v, n)) == v % Pow256(n)
    decreases n
  {
    if n > 0 {
      UnpackPackLE(v / 0x100, n - 1);
      assert PackLE(v, n)[1..] == PackLE(v / 0x100, n - 1);
      ModSplit(v, Pow256(n - 1));
    }
  }

  lemma ModSplit(v: int, p: int)
    requires p >= 1
    ensures v % (0x100 * p) == v % 0x100 + 0x100 * ((v / 0x100) % p)
  {
    var q := (v / 0x100) / p;
    var r := v % 0x100 + 0x100 * ((v / 0x100) % p);
    assert v == 0x100 * (v / 0x100) + v % 0x100;
    assert v / 0x100 == p * q + (v / 0x100) % p;
    assert v == (0x100 * p) * q + r;
    DivModUnique(v, 0x100 * p, q, r);
  }

  /** `struct.unpack` with the kind's code: two's complement for signed kinds. */
  function Unpack(k: IntKind, b: seq<byte>): int
    requires |b| == Width(k)
  {
    var u := UnpackLE(b);
    if IsSigned(k) && u > TypeMax(k) then u - Pow256(Width(k)) else u
  }

  lemma WidthBounds(k: IntKind)
    ensures Pow256(Width(k)) == TypeMax(k) - TypeMin(k) + 1
    ensures IsSigned(k) ==> TypeMin(k) == -(TypeMax(k) + 1)
    ensures !IsSigned(k) ==> TypeMin(k) == 0
  {
    assert Pow256(1) == 0x100;
    assert Pow256(2) == 0x1_0000;
    assert Pow256(4) == 0x1_0000_0000;
  }

  /** Unpacking what was packed gives back every value the kind can hold. */
  lemma PackRoundTrip(k: IntKind, v: int)
    requires TypeMin(k) <= v <= TypeMax(k)
    ensures Unpack(k, PackLE(v, Width(k))) == v
  {
    var n := Width(k);
    UnpackPackLE(v, n);
    WidthBounds(k);
    if v < 0 {
      DivModUnique(v, Pow256(n), -1, v + Pow256(n));
    } else {
      DivModUnique(v, Pow256(n), 0, v);
    }
  }

  // ---------------------------------------------------------------------
  // Arguments

  datatype Pad = PadLeft | PadRight | PadNone

  /** The three argument classes the command table uses. An integer
      argument carries its own bounds (the type's unless narrowed). */
  datatype Argument =
    | IntegerArg(name: string, kind: IntKind, min: int, max: int)
    | HexArg(name: string, length: nat, pad: Pad)
    | StringArg(name: string)

  /** A decoded argument, before `str` is applied to it. */
  datatype Value = IntValue(i: int) | TextValue(t: Str)

  function Show(v: Value): Str
  {
    match v
    case IntValue(i) => DecimalText(i)
    case TextValue(t) => t
  }

  /** `IntegerArgument.__init__`: a given bound may only narrow the type's. */
  function NewIntegerArg(name: string, k: IntKind, min: Option<int>, max: Option<int>): (r: Result<Argument, Error>)
    ensures r == Raise(MinTooLow) <==> min.Some? && min.value < TypeMin(k)
    ensures r == Raise(MaxTooHigh) <==> (min.Some? ==> min.value >= TypeMin(k)) && max.Some? && max.value > TypeMax(k)
    ensures r.Ok? ==> r.value.IntegerArg? && r.value.kind == k && ValidInteger(r.value)
    ensures r.Ok? ==> (min.None? ==> r.value.min == TypeMin(k)) && (max.None? ==> r.value.max == TypeMax(k))
  {
    if min.Some? && min.value < TypeMin(k) then Raise(MinTooLow)
    else if max.Some? && max.value > TypeMax(k) then Raise(MaxTooHigh)
    else Ok(IntegerArg(name, k,
                       if min.Some? then min.value else TypeMin(k),
                       if max.Some? then max.value else TypeMax(k)))
  }

  /** The bounds of an integer argument lie within its type. */
  predicate ValidInteger(a: Argument)
    requires a.IntegerArg?
  {
    TypeMin(a.kind) <= a.min && a.max <= TypeMax(a.kind)
  }

  /** An integer argument with the type's own bounds. */
  function PlainInteger(k: IntKind, name: string): (a: Argument)
    ensures a.IntegerArg? && ValidInteger(a)
  {
    IntegerArg(name, k, TypeMin(k), TypeMax(k))
  }

  /** `HexArgument.__init__`: the pad mode is one of three words. */
  function NewHexArg(name: string, length: nat, pad: Str): (r: Result<Argument, Error>)
    ensures r.Raise? <==> pad != "left" && pad != "right" && pad != "none"
    ensures r.Ok? ==> r.value == HexArg(name, length, if pad == "left" then PadLeft else if pad == "right" then PadRight else PadNone)
  {
    if pad == "left" then Ok(HexArg(name, length, PadLeft))
    else if pad == "right" then Ok(HexArg(name, length, PadRight))
    else if pad == "none" then Ok(HexArg(name, length, PadNone))
    else Raise(InvalidPad)
  }

  function RemoveSpaces(t: Str): (r: Str)
    ensures forall i :: 0 <= i < |r| ==> r[i] != ' '
  {
    if t == [] then [] else (if t[0] == ' ' then [] else [t[0]]) + RemoveSpaces(t[1..])
  }

  function Zeros(n: nat): (z: seq<byte>)
    ensures |z| == n && forall i :: 0 <= i < n ==> z[i] == 0
  {
    seq(n, _ => 0)
  }

  /** `to_bytes` of each argument class. */
  function ArgToBytes(a: Argument, token: Str): (r: Result<seq<byte>, Error>)
    ensures a.StringArg? ==> r.Ok? && |r.value| == |token|
    ensures a.IntegerArg? && r.Ok? ==> |r.value| == Width(a.kind)
    ensures a.HexArg? && r.Ok? ==> |r.value| == a.length
  {
    match a
    case IntegerArg(_, k, min, max) =>
      (match ParseLiteral(token)
       case None => Raise(NotALiteral)
       case Some(v) =>
         if v > max then Raise(ValueTooLarge)
         else if v < min then Raise(ValueTooSmall)
         else if v < TypeMin(k) || v > TypeMax(k) then Raise(StructError)
         else Ok(PackLE(v, Width(k))))
    case HexArg(_, length, pad) =>
      (match Unhexlify(RemoveSpaces(token))
       case None => Raise(NotHex)
       case Some(v) =>
         if |v| > length then Raise(HexTooLong)
         else if pad == PadNone && |v| < length then Raise(HexTooShort)
         else if pad == PadLeft then Ok(Zeros(length - |v|) + v)
         else Ok(v + Zeros(length - |v|)))
    case StringArg(_) => Ok(TextBytes(token))
  }

  /** `from_bytes` of each argument class: the value and the unread rest. */
  function ArgFromBytes(a: Argument, b: seq<byte>): (r: Result<(Value, seq<byte>), Error>)
    ensures a.IntegerArg? ==> (r.Ok? <==> |b| >= Width(a.kind))
    ensures a.HexArg? ==> (r.Ok? <==> |b| >= a.length)
    ensures a.StringArg? ==> r.Ok? && r.value.1 == []
    ensures r.Ok? && a.IntegerArg? ==> r.value.1 == b[Width(a.kind)..]
    ensures r.Ok? && a.HexArg? ==> r.value.1 == b[a.length..]
  {
    match a
    case IntegerArg(_, k, _, _) =>
      if |b| < Width(k) then Raise(NotEnoughBytes)
      else Ok((IntValue(Unpack(k, b[..Width(k)])), b[Width(k)..]))
    case HexArg(_, length, _) =>
      if |b| < length then Raise(NotEnoughBytes)
      else Ok((TextValue(HexText(b[..length])), b[length..]))
    case StringArg(_) => Ok((TextValue("\"" + BytesText(b) + "\""), []))
  }

  /** An integer argument packs a token exactly when the token is a literal
      within the argument's bounds, and then in the type's width. */
  lemma IntegerToBytesSpec(a: Argument, token: Str)
    requires a.IntegerArg? && ValidInteger(a)
    ensures ArgToBytes(a, token).Ok? <==>
              ParseLiteral(token).Some? && a.min <= ParseLiteral(token).value <= a.max
    ensures ParseLiteral(token).Some? && ParseLiteral(token).value > a.max ==>
              ArgToBytes(a, token) == Raise(ValueTooLarge)
    ensures ParseLiteral(token).Some? && ParseLiteral(token).value < a.min <= a.max ==>
              ArgToBytes(a, token) == Raise(ValueTooSmall)
    ensures ArgToBytes(a, token).Ok? ==> |ArgToBytes(a, token).value| == Width(a.kind)
  {
  }

  /** A hexadecimal argument takes the digits (spaces ignored) when they fit,
      and pads with zero bytes on the chosen side up to its length. */
  lemma HexToBytesSpec(a: Argument, token: Str)
    requires a.HexArg?
    ensures var v := Unhexlify(RemoveSpaces(token));
            ArgToBytes(a, token).Ok? <==>
              v.Some? && |v.value| <= a.length && (a.pad == PadNone ==> |v.value| == a.length)
    ensures var v := Unhexlify(RemoveSpaces(token));
            ArgToBytes(a, token).Ok? ==>
              var b, n := ArgToBytes(a, token).value, |v.value|;
              && |b| == a.length
              && (a.pad == PadLeft ==>
                    b[a.length - n..] == v.value && forall i :: 0 <= i < a.length - n ==> b[i] == 0)
              && (a.pad != PadLeft ==>
                    b[..n] == v.value && forall i :: n <= i < a.length ==> b[i] == 0)
  {
    var v := Unhexlify(RemoveSpaces(token));
    if ArgToBytes(a, token).Ok? {
      var b, n := ArgToBytes(a, token).value, |v.value|;
      if a.pad == PadLeft {
        assert b == Zeros(a.length - n) + v.value;
        assert b[a.length - n..] == v.value;
      } else {
        assert b == v.value + Zeros(a.length - n);
        assert b[..n] == v.value;
      }
    }
  }

  /** The arguments whose encoding has a fixed, non-zero size. */
  predicate FixedWidth(a: Argument)
  {
    (a.IntegerArg? && ValidInteger(a)) || (a.HexArg? && a.length > 0)
  }

  function ArgWidth(a: Argument): nat
    requires FixedWidth(a)
  {
    if a.IntegerArg? then Width(a.kind) else a.length
  }

  lemma FixedWidthBytes(a: Argument, token: Str)
    requires FixedWidth(a) && ArgToBytes(a, token).Ok?
    ensures |ArgToBytes(a, token).value| == ArgWidth(a)
  {
    if a.HexArg? {
      HexToBytesSpec(a, token);
    }
  }

  /** What `from_bytes` reads back from the encoding of a token. */
  function Canonical(a: Argument, token: Str): Value
    requires ArgToBytes(a, token).Ok?
  {
    match a
    case IntegerArg(_, _, _, _) => IntValue(ParseLiteral(token).value)
    case HexArg(_, _, _) => TextValue(HexText(ArgToBytes(a, token).value))
    case StringArg(_) => TextValue("\"" + token + "\"")
  }

  /** Reading back an encoded argument gives the token's value and leaves
      exactly the bytes that follow. For a string argument this holds when
      nothing follows. */
  lemma ArgRoundTrip(a: Argument, token: Str, rest: seq<byte>)
    requires ArgToBytes(a, token).Ok?
    requires a.StringArg? ==> rest == []
    ensures ArgFromBytes(a, ArgToBytes(a, token).value + rest) ==
              Ok((Canonical(a, token), rest))
  {
    var b := ArgToBytes(a, token).value;
    match a
    case IntegerArg(_, k, _, _) =>
      PackRoundTrip(k, ParseLiteral(token).value);
      assert (b + rest)[..Width(k)] == b;
      assert (b + rest)[Width(k)..] == rest;
    case HexArg(_, length, _) =>
      HexToBytesSpec(a, token);
      assert (b + rest)[..length] == b;
      assert (b + rest)[length..] == rest;
    case StringArg(_) =>
      TextBytesRoundTrip(token, b);
      assert b + rest == b;
  }

  /** The printed value of an integer or hexadecimal argument, given back as
      a token, encodes to the same bytes. */
  lemma CanonicalReencodes(a: Argument, token: Str)
    requires FixedWidth(a) && ArgToBytes(a, token).Ok?
    ensures ArgToBytes(a, Show(Canonical(a, token))) == ArgToBytes(a, token)
  {
    if a.IntegerArg? {
      DecimalTextParses(ParseLiteral(token).value);
    } else {
      var b := ArgToBytes(a, token).value;
      HexToBytesSpec(a, token);
      var t := HexText(b);
      NoSpaceHex(b);
      UnhexlifyHexlify(b);
      assert Unhexlify(RemoveSpaces(t)) == Some(b);
      assert Zeros(0) == [];
      assert b + Zeros(0) == b && Zeros(0) + b == b;
    }
  }

  lemma {:induction false} NoSpaceHex(b: seq<byte>)
    ensures RemoveSpaces(HexText(b)) == HexText(b)
    ensures forall i :: 0 <= i < |HexText(b)| ==> !IsSpace(HexText(b)[i])
  {
    if b != [] {
      NoSpaceHex(b[1..]);
      var h := [LowerHexDigit(b[0] / 16), LowerHexDigit(b[0] % 16)];
      var t := HexText(b);
      assert t == h + HexText(b[1..]);
      assert t[1..] == [h[1]] + HexText(b[1..]);
      assert t[1..][1..] == HexText(b[1..]);
      forall i | 0 <= i < |t|
        ensures !IsSpace(t[i])
      {
        if i >= 2 {
          assert t[i] == HexText(b[1..])[i - 2];
        }
      }
    }
  }

  // ---------------------------------------------------------------------
  // Whitespace splitting and joining (`str.split()`, `' '.join`)

  predicate IsSpace(c: char)
  {
    c == ' ' || c == '\t' || c == '\n' || c == '\r' || c == '\U{B}' || c == '\U{C}'
  }

  /** The end of the word starting at or before `i`. */
  function WordEnd(s: Str, i: nat): (r: nat)
    requires i <= |s|
    ensures i <= r <= |s|
    ensures r == |s| || IsSpace(s[r])
    ensures forall k :: i <= k < r ==> !IsSpace(s[k])
    decreases |s| - i
  {
    if i == |s| || IsSpace(s[i]) then i else WordEnd(s, i + 1)
  }

  /** `s.split()`: the maximal runs of non-whitespace characters, in order. */
  function Words(s: Str): (ws: seq<Str>)
    ensures forall k :: 0 <= k < |ws| ==> IsWord(ws[k])
    decreases |s|
  {
    if s == [] then []
    else if IsSpace(s[0]) then Words(s[1..])
    else
      var n := WordEnd(s, 0);
      [s[..n]] + Words(s[n..])
  }

  predicate IsWord(w: Str)
  {
    w != [] && forall i :: 0 <= i < |w| ==> !IsSpace(w[i])
  }

  function Join(ws: seq<Str>): Str
  {
    if ws == [] then [] else if |ws| == 1 then ws[0] else ws[0] + " " + Join(ws[1..])
  }

  lemma WordsOfWord(w: Str, rest: Str)
    requires IsWord(w) && (rest == [] || IsSpace(rest[0]))
    ensures Words(w + rest) == [w] + Words(rest)
  {
    var s := w + rest;
    assert WordEnd(s, 0) == |w| by {
      WordEndAt(s, 0, |w|);
    }
    assert s[..|w|] == w && s[|w|..] == rest;
  }

  lemma {:induction false} WordEndAt(s: Str, i: nat, j: nat)
    requires i <= j <= |s| && (j == |s| || IsSpace(s[j]))
    requires forall k :: i <= k < j ==> !IsSpace(s[k])
    ensures WordEnd(s, i) == j
    decreases j - i
  {
    if i < j {
      WordEndAt(s, i + 1, j);
    }
  }

  /** Splitting the space-joined words gives the words back. */
  lemma {:induction false} WordsOfJoin(ws: seq<Str>)
    requires forall k :: 0 <= k < |ws| ==> IsWord(ws[k])
    ensures Words(Join(ws)) == ws
  {
    if |ws| == 1 {
      WordsOfWord(ws[0], []);
      assert ws[0] + [] == ws[0];
    } else if |ws| > 1 {
      var rest := Join(ws[1..]);
      WordsOfJoin(ws[1..]);
      WordsOfWord(ws[0], " " + rest);
      assert ws[0] + " " + rest == ws[0] + (" " + rest);
      assert (" " + rest)[1..] == rest;
      assert [ws[0]] + ws[1..] == ws;
    }
  }

  lemma WordsAfterSpace(t: Str)
    ensures Words(" " + t) == Words(t)
  {
    assert (" " + t)[1..] == t;
  }

  // ---------------------------------------------------------------------
  // Commands

  /** A command: its key word, opcode byte, arguments in order, and how many
      trailing arguments may be left out. */
  datatype CommandDef = CommandDef(key: Str, opcode: byte, args: seq<Argument>, optionalArgs: nat)

  /** Appends `prefix` to a successful result. */
  function Prepend(prefix: seq<byte>, r: Result<seq<byte>, Error>): Result<seq<byte>, Error>
  {
    match r
    case Ok(b) => Ok(prefix + b)
    case Raise(e) => Raise(e)
  }

  /** The bytes of the arguments for `tokens`: each argument takes the next
      token; an argument among the last `optional` may find none, any other
      raises; tokens left over raise. */
  function EncodeArgs(args: seq<Argument>, optional: nat, tokens: seq<Str>): (r: Result<seq<byte>, Error>)
    ensures r.Ok? ==> |args| - optional <= |tokens| <= |args| && AllConvert(args, tokens)
    decreases |args|
  {
    if args == [] then
      if tokens == [] then Ok([]) else Raise(UnparsedExtras)
    else if tokens == [] then
      if |args| <= optional then EncodeArgs(args[1..], optional, []) else Raise(MissingArgument)
    else
      match ArgToBytes(args[0], tokens[0])
      case Raise(e) => Raise(e)
      case Ok(b) => Prepend(b, EncodeArgs(args[1..], optional, tokens[1..]))
  }

  function EncodeCommand(c: CommandDef, tokens: seq<Str>): (r: Result<seq<byte>, Error>)
    ensures r.Ok? ==> |r.value| >= 1 && r.value[0] == c.opcode
    ensures r.Raise? <==> EncodeArgs(c.args, c.optionalArgs, tokens).Raise?
  {
    Prepend([c.opcode], EncodeArgs(c.args, c.optionalArgs, tokens))
  }

  predicate AllConvert(args: seq<Argument>, tokens: seq<Str>)
    requires |tokens| <= |args|
  {
    forall k :: 0 <= k < |tokens| ==> ArgToBytes(args[k], tokens[k]).Ok?
  }

  /** The arguments are encoded exactly when the tokens number between the
      required and the total count and each converts; the bytes are then the
      concatenation of the tokens' encodings. */
  lemma {:induction false} EncodeArgsSpec(args: seq<Argument>, optional: nat, tokens: seq<Str>)
    ensures EncodeArgs(args, optional, tokens).Ok? <==>
              |args| - optional <= |tokens| <= |args| && AllConvert(args, tokens)
    ensures |tokens| > |args| && (forall k :: 0 <= k < |args| ==> ArgToBytes(args[k], tokens[k]).Ok?) ==>
              EncodeArgs(args, optional, tokens) == Raise(UnparsedExtras)
    ensures |tokens| < |args| - optional && AllConvert(args, tokens) ==>
              EncodeArgs(args, optional, tokens) == Raise(MissingArgument)
    ensures EncodeArgs(args, optional, tokens).Ok? ==>
              EncodeArgs(args, optional, tokens).value == ConcatEncodings(args, tokens)
    decreases |args|
  {
    if args != [] {
      EncodeArgsSpec(args[1..], optional, if tokens == [] then [] else tokens[1..]);
      if tokens != [] {
        if |tokens| <= |args| && AllConvert(args, tokens) {
          assert AllConvert(args[1..], tokens[1..]) by {
            forall k | 0 <= k < |tokens| - 1
              ensures ArgToBytes(args[1..][k], tokens[1..][k]).Ok?
            {
              assert ArgToBytes(args[k + 1], tokens[k + 1]).Ok?;
            }
          }
        }
        if ArgToBytes(args[0], tokens[0]).Ok? && |tokens| - 1 <= |args| - 1 && AllConvert(args[1..], tokens[1..]) {
          forall k | 0 <= k < |tokens|
            ensures ArgToBytes(args[k], tokens[k]).Ok?
          {
            if k > 0 {
              assert args[k] == args[1..][k - 1] && tokens[k] == tokens[1..][k - 1];
            }
          }
        }
        if |tokens| > |args| && (forall k :: 0 <= k < |args| ==> ArgToBytes(args[k], tokens[k]).Ok?) {
          assert forall k :: 0 <= k < |args| - 1 ==> ArgToBytes(args[1..][k], tokens[1..][k]).Ok? by {
            forall k | 0 <= k < |args| - 1
              ensures ArgToBytes(args[1..][k], tokens[1..][k]).Ok?
            {
              assert ArgToBytes(args[k + 1], tokens[k + 1]).Ok?;
            }
          }
        }
      }
    } else if tokens != [] {
    }
  }

  /** The supplied tokens' encodings, one after the other. */
  function ConcatEncodings(args: seq<Argument>, tokens: seq<Str>): seq<byte>
    requires |tokens| <= |args| && AllConvert(args, tokens)
  {
    if tokens == [] then []
    else ArgToBytes(args[0], tokens[0]).value + ConcatEncodings(args[1..], tokens[1..])
  }

  /** `Command.tokens_to_bytes`: the opcode, then each argument in turn
      pops the next token and appends its bytes. */
  method TokensToBytes(c: CommandDef, tokens: seq<Str>) returns (r: Result<seq<byte>, Error>)
    ensures r == EncodeCommand(c, tokens)
  {
    var rest := tokens;
    var rv := [c.opcode];
    var i := 0;
    while i < |c.args|
      invariant 0 <= i <= |c.args|
      invariant Prepend(rv, EncodeArgs(c.args[i..], c.optionalArgs, rest)) == EncodeCommand(c, tokens)
    {
      assert c.args[i..][1..] == c.args[i + 1..];
      var optional := |c.args| - i <= c.optionalArgs;
      if rest == [] {
        if !optional {
          return Raise(MissingArgument);
        }
      } else {
        var key := rest[0];
        rest := rest[1..];
        var b := ArgToBytes(c.args[i], key);
        if b.Raise? {
          return Raise(b.error);
        }
        PrependAssoc(rv, b.value, EncodeArgs(c.args[i + 1..], c.optionalArgs, rest));
        rv := rv + b.value;
      }
      i := i + 1;
    }
    assert c.args[i..] == [];
    if rest != [] {
      return Raise(UnparsedExtras);
    }
    assert rv + [] == rv;
    r := Ok(rv);
  }

  lemma PrependAssoc(p: seq<byte>, q: seq<byte>, r: Result<seq<byte>, Error>)
    ensures Prepend(p, Prepend(q, r)) == Prepend(p + q, r)
  {
    if r.Ok? {
      assert p + (q + r.value) == (p + q) + r.value;
    }
  }

  /** `Command.bytes_to_string` before the join: each argument reads its
      value from what is left; a failing argument among the last `optional`
      is skipped (the next one reads from the same place), any other
      failure propagates. */
  function DecodeArgs(args: seq<Argument>, optional: nat, msg: seq<byte>): (r: Result<seq<Value>, Error>)
    ensures r.Ok? ==> |args| - optional <= |r.value| <= |args|
    decreases |args|
  {
    if args == [] then Ok([])
    else
      match ArgFromBytes(args[0], msg)
      case Raise(e) =>
        if |args| <= optional then DecodeArgs(args[1..], optional, msg) else Raise(e)
      case Ok((v, rest)) =>
        match DecodeArgs(args[1..], optional, rest)
        case Raise(e) => Raise(e)
        case Ok(vs) => Ok([v] + vs)
  }

  function ShowAll(vs: seq<Value>): (ts: seq<Str>)
    ensures |ts| == |vs| && forall k :: 0 <= k < |vs| ==> ts[k] == Show(vs[k])
  {
    if vs == [] then [] else [Show(vs[0])] + ShowAll(vs[1..])
  }

  function BytesToString(c: CommandDef, msg: seq<byte>): (r: Result<Str, Error>)
    ensures r.Raise? <==> DecodeArgs(c.args, c.optionalArgs, msg).Raise?
    ensures r.Raise? ==> r.error == DecodeArgs(c.args, c.optionalArgs, msg).error
    ensures c.args == [] ==> r == Ok([])
  {
    match DecodeArgs(c.args, c.optionalArgs, msg)
    case Raise(e) => Raise(e)
    case Ok(vs) => Ok(Join(ShowAll(vs)))
  }

  /** The argument lists the round trip holds for: every argument has a
      fixed width, except that a mandatory string argument may come last
      (it takes the rest of the message). */
  predicate Framed(args: seq<Argument>, optional: nat)
  {
    forall k :: 0 <= k < |args| ==>
      FixedWidth(args[k]) || (args[k].StringArg? && k == |args| - 1 && optional == 0)
  }

  /** The values read back from the supplied tokens, in order. */
  function CanonicalAll(args: seq<Argument>, tokens: seq<Str>): (vs: seq<Value>)
    requires |tokens| <= |args| && AllConvert(args, tokens)
    ensures |vs| == |tokens| && forall k :: 0 <= k < |tokens| ==> vs[k] == Canonical(args[k], tokens[k])
  {
    if tokens == [] then []
    else [Canonical(args[0], tokens[0])] + CanonicalAll(args[1..], tokens[1..])
  }

  /** Decoding the encoded arguments reads back every supplied token's value
      in order; the optional arguments that were left out yield nothing. */
  lemma {:induction false} DecodeEncodeArgs(args: seq<Argument>, optional: nat, tokens: seq<Str>)
    requires Framed(args, optional)
    requires EncodeArgs(args, optional, tokens).Ok?
    ensures DecodeArgs(args, optional, EncodeArgs(args, optional, tokens).value) ==
              Ok(CanonicalAll(args, tokens))
    decreases |args|
  {
    EncodeArgsSpec(args, optional, tokens);
    var b := EncodeArgs(args, optional, tokens).value;
    if args != [] {
      assert Framed(args[1..], optional) by {
        forall k | 0 <= k < |args| - 1
          ensures FixedWidth(args[1..][k]) || (args[1..][k].StringArg? && k == |args[1..]| - 1 && optional == 0)
        {
          assert args[1..][k] == args[k + 1];
        }
      }
      if tokens == [] {
        assert b == [];
        EncodeArgsSpec(args[1..], optional, []);
        DecodeEncodeArgs(args[1..], optional, []);
        assert FixedWidth(args[0]);
        assert ArgFromBytes(args[0], []) == Raise(NotEnoughBytes);
        assert DecodeArgs(args, optional, []) == DecodeArgs(args[1..], optional, []);
      } else {
        var h := ArgToBytes(args[0], tokens[0]).value;
        var t := EncodeArgs(args[1..], optional, tokens[1..]).value;
        assert b == h + t;
        if args[0].StringArg? {
          assert |args| == 1 && |tokens| == 1;
          assert t == [];
        }
        ArgRoundTrip(args[0], tokens[0], t);
        DecodeEncodeArgs(args[1..], optional, tokens[1..]);
      }
    }
  }

  // ---------------------------------------------------------------------
  // The command table

  const Ack: byte := 0x10
  const Nack: byte := 0xFF
  const Reboot: byte := 0x12
  const GetCallsign: byte := 0x19
  const SetCallsign: byte := 0x1A
  const Callsign: byte := 0x1B
  const GetTelem: byte := 0x17
  const Telem: byte := 0x18
  const GetTime: byte := 0x13
  const SetTime: byte := 0x14
  const BootloaderPing: byte := 0x00
  const BootloaderErase: byte := 0x0C
  const BootloaderWritePage: byte := 0x02
  const BootloaderAck: byte := 0x01
  const BootloaderNack: byte := 0x0F
  const Ascii: byte := 0x11

  /** The system byte of a local command (`LST`). */
  const Lst: byte := 0x01

  const TelemArgs: seq<Argument> := [
    PlainInteger(UInt8, "reserved"),
    PlainInteger(UInt32, "uptime"),
    PlainInteger(UInt32, "uart0_rx_count"),
    PlainInteger(UInt32, "uart1_rx_count"),
    PlainInteger(UInt8, "rx_mode"),
    PlainInteger(UInt8, "tx_mode"),
    PlainInteger(Int16, "adc0"),
    PlainInteger(Int16, "adc1"),
    PlainInteger(Int16, "adc2"),
    PlainInteger(Int16, "adc3"),
    PlainInteger(Int16, "adc4"),
    PlainInteger(Int16, "adc5"),
    PlainInteger(Int16, "adc6"),
    PlainInteger(Int16, "adc7"),
    PlainInteger(Int16, "adc8"),
    PlainInteger(Int16, "adc9"),
    PlainInteger(Int8, "last_rssi"),
    PlainInteger(UInt8, "last_lqi"),
    PlainInteger(Int8, "last_freqest"),
    PlainInteger(UInt32, "packets_sent"),
    PlainInteger(UInt32, "cs_count"),
    PlainInteger(UInt32, "packets_good"),
    PlainInteger(UInt32, "packets_rejected_checksum"),
    PlainInteger(UInt32, "packets_rejected_reserved"),
    PlainInteger(UInt32, "packets_rejected_other"),
    PlainInteger(UInt32, "reserved0"),
    PlainInteger(UInt32, "reserved1"),
    PlainInteger(UInt32, "custom0"),
    PlainInteger(UInt32, "custom1")]

  /** `COMMANDS`. */
  const Commands: seq<CommandDef> := [
    CommandDef("ack", Ack, [], 0),
    CommandDef("nack", Nack, [], 0),
    CommandDef("bootloader_ack", BootloaderAck, [PlainInteger(UInt8, "reason")], 1),
    CommandDef("bootloader_nack", BootloaderNack, [], 0),
    CommandDef("bootloader_ping", BootloaderPing, [], 0),
    CommandDef("bootloader_erase", BootloaderErase, [PlainInteger(UInt8, "status")], 1),
    CommandDef("bootloader_write_page", BootloaderWritePage,
               [PlainInteger(UInt8, "page"), HexArg("data", 128, PadNone)], 1),
    CommandDef("reboot", Reboot, [PlainInteger(UInt32, "delay")], 1),
    CommandDef("get_time", GetTime, [], 0),
    CommandDef("set_time", SetTime,
               [PlainInteger(UInt32, "seconds"), PlainInteger(UInt32, "nanoseconds")], 0),
    CommandDef("get_callsign", GetCallsign, [], 0),
    CommandDef("set_callsign", SetCallsign, [StringArg("callsign")], 0),
    CommandDef("callsign", Callsign, [StringArg("callsign")], 0),
    CommandDef("get_telem", GetTelem, [], 0),
    CommandDef("telem", Telem, TelemArgs, 0),
    CommandDef("ascii", Ascii, [StringArg("text")], 0)]

  /** A dictionary built from `cmds` by key (`CMD_STRING_MAP`): the last
      entry with the key wins. */
  function FindByKey(cmds: seq<CommandDef>, key: Str): (r: Option<CommandDef>)
    ensures r.Some? ==> r.value in cmds && r.value.key == key
    ensures r.None? ==> forall c :: c in cmds ==> c.key != key
  {
    if cmds == [] then None
    else if cmds[|cmds| - 1].key == key then Some(cmds[|cmds| - 1])
    else FindByKey(cmds[..|cmds| - 1], key)
  }

  /** A dictionary built from `cmds` by opcode (`CMD_OPCODE_MAP`). */
  function FindByOpcode(cmds: seq<CommandDef>, opcode: byte): (r: Option<CommandDef>)
    ensures r.Some? ==> r.value in cmds && r.value.opcode == opcode
    ensures r.None? ==> forall c :: c in cmds ==> c.opcode != opcode
  {
    if cmds == [] then None
    else if cmds[|cmds| - 1].opcode == opcode then Some(cmds[|cmds| - 1])
    else FindByOpcode(cmds[..|cmds| - 1], opcode)
  }

  predicate DistinctOpcodes(table: seq<CommandDef>)
  {
    forall i, j :: 0 <= i < j < |table| ==> table[i].opcode != table[j].opcode
  }

  predicate DistinctKeys(table: seq<CommandDef>)
  {
    forall i, j :: 0 <= i < j < |table| ==> table[i].key != table[j].key
  }

  predicate AllFramed(table: seq<CommandDef>)
  {
    forall k :: 0 <= k < |table| ==> Framed(table[k].args, table[k].optionalArgs)
  }

  /** No two commands of the table share an opcode or a key, and every
      argument list reads back (`Framed`) with the integer arguments keeping
      the bounds of their types. */
  lemma TableWellFormed()
    ensures DistinctOpcodes(Commands) && DistinctKeys(Commands) && AllFramed(Commands)
  {
    OpcodesDistinct();
    KeysDistinct();
    TelemFramed();
  }

  lemma OpcodesDistinct()
    ensures DistinctOpcodes(Commands)
  {
  }

  lemma KeysDistinct()
    ensures DistinctKeys(Commands)
  {
  }

  lemma TelemFramed()
    ensures forall k :: 0 <= k < |TelemArgs| ==> FixedWidth(TelemArgs[k])
  {
  }

  /** With distinct opcodes, the opcode dictionary finds each command of the
      table under its own opcode. */
  lemma FindOwnOpcode(table: seq<CommandDef>, c: CommandDef)
    requires DistinctOpcodes(table) && c in table
    ensures FindByOpcode(table, c.opcode) == Some(c)
  {
    var r := FindByOpcode(table, c.opcode).value;
    var i :| 0 <= i < |table| && table[i] == r;
    var j :| 0 <= j < |table| && table[j] == c;
    assert i == j;
  }

  /** With distinct keys, the key dictionary finds each command of the
      table under its own key. */
  lemma FindOwnKey(table: seq<CommandDef>, c: CommandDef)
    requires DistinctKeys(table) && c in table
    ensures FindByKey(table, c.key) == Some(c)
  {
    var r := FindByKey(table, c.key).value;
    var i :| 0 <= i < |table| && table[i] == r;
    var j :| 0 <= j < |table| && table[j] == c;
    assert i == j;
  }

  // ---------------------------------------------------------------------
  // The translator, over a command table (`COMMANDS` is `Commands`)

  /** `Translator.bytes_from_string`: hwid and seqnum as little-endian
      16-bit values, the system byte, then the command's bytes. */
  function BytesFromString(table: seq<CommandDef>, hwid: int, seqnum: int, s: Str): (r: Result<seq<byte>, Error>)
    ensures !(0 <= hwid < 0x1_0000 && 0 <= seqnum < 0x1_0000) ==> r == Raise(StructError)
    ensures r.Ok? ==> |r.value| >= 6 && GetLE16(r.value, 0) == hwid && GetLE16(r.value, 2) == seqnum
                      && r.value[4] == Lst && |Words(s)| >= 2 && FindByKey(table, Words(s)[1]).Some?
                      && r.value[5] == FindByKey(table, Words(s)[1]).value.opcode
  {
    if !(0 <= hwid < 0x1_0000 && 0 <= seqnum < 0x1_0000) then Raise(StructError)
    else
      var tokens := Words(s);
      if |tokens| < 2 then Raise(CommandTooShort)
      else if tokens[0] != LstWord then Raise(UnknownSystem)
      else
        match FindByKey(table, tokens[1])
        case None => Raise(UnknownCommand)
        case Some(c) => Prepend(LE16(hwid) + LE16(seqnum) + [Lst], EncodeCommand(c, tokens[2..]))
  }

  /** The system word of local commands. */
  const LstWord: Str := "lst"

  const Space: Str := " "

  /** "lst <key> <arguments>" */
  function CommandLine(key: Str, args: Str): Str
  {
    LstWord + (Space + (key + (Space + args)))
  }

  lemma CommandLinePrefix(key: Str, args: Str)
    ensures CommandLine(key, args)[..4] == "lst "
  {
    assert CommandLine(key, args) == "lst " + (key + (Space + args));
  }

  /** `Translator.string_from_bytes`: never raises; what it cannot read it
      reports in hexadecimal. */
  function StringFromBytes(table: seq<CommandDef>, b: seq<byte>): (t: Str)
    ensures |t| >= 4 && (t[..4] == "lst " <==> |b| >= 6 && b[4] == Lst)
  {
    var tooShort: Str, unknown: Str, unknownSys: Str :=
      "too_short ", "lst unknown ", "unknown_sys ";
    if |b| < 6 then PrefixOf(tooShort, HexText(b)); assert tooShort[0] == 't'; tooShort + HexText(b)
    else if b[4] == Lst then
      match FindByOpcode(table, b[5])
      case None => PrefixOf(unknown, HexText(b[5..])); unknown + HexText(b[5..])
      case Some(c) =>
        match BytesToString(c, b[6..])
        case Raise(_) => PrefixOf(unknown, HexText(b[5..])); unknown + HexText(b[5..])
        case Ok(t) => CommandLinePrefix(c.key, t); CommandLine(c.key, t)
    else PrefixOf(unknownSys, HexText(b[4..])); assert unknownSys[0] == 'u'; unknownSys + HexText(b[4..])
  }

  lemma PrefixOf(x: Str, y: Str)
    requires |x| >= 4
    ensures (x + y)[..4] == x[..4] && (x + y)[0] == x[0]
  {
  }

  /** `Translator.int_from_bytes`: `struct.unpack('<H')` needs exactly two bytes. */
  function IntFromBytes(b: seq<byte>): (r: Result<int, Error>)
    ensures r.Ok? <==> |b| == 2
  {
    if |b| != 2 then Raise(StructError) else Ok(GetLE16(b, 0))
  }

  /** `int_from_bytes` reads back the sequence number `bytes_from_string`
      packs. */
  lemma IntFromBytesInverts(v: u16)
    ensures IntFromBytes(LE16(v)) == Ok(v)
  {
    LE16RoundTrip(v);
  }

  /** The errors of `bytes_from_string`, in the order it checks them. */
  lemma BytesFromStringErrors(table: seq<CommandDef>, hwid: int, seqnum: int, s: Str)
    ensures !(0 <= hwid < 0x1_0000 && 0 <= seqnum < 0x1_0000) ==>
              BytesFromString(table, hwid, seqnum, s) == Raise(StructError)
    ensures 0 <= hwid < 0x1_0000 && 0 <= seqnum < 0x1_0000 ==>
              && (|Words(s)| < 2 ==> BytesFromString(table, hwid, seqnum, s) == Raise(CommandTooShort))
              && (|Words(s)| >= 2 && Words(s)[0] != LstWord ==>
                    BytesFromString(table, hwid, seqnum, s) == Raise(UnknownSystem))
              && (|Words(s)| >= 2 && Words(s)[0] == LstWord && FindByKey(table, Words(s)[1]).None? ==>
                    BytesFromString(table, hwid, seqnum, s) == Raise(UnknownCommand))
  {
  }

  /** The layout of the message `bytes_from_string` builds: hwid and seqnum
      little-endian, the system byte, the opcode of the named command and
      its arguments' bytes. */
  lemma BytesFromStringLayout(table: seq<CommandDef>, hwid: int, seqnum: int, s: Str)
    requires BytesFromString(table, hwid, seqnum, s).Ok?
    ensures var m := BytesFromString(table, hwid, seqnum, s).value;
            var c := FindByKey(table, Words(s)[1]).value;
            && Words(s)[0] == LstWord && c.key == Words(s)[1]
            && m == LE16(hwid) + LE16(seqnum) + [Lst] + ([c.opcode] + EncodeArgs(c.args, c.optionalArgs, Words(s)[2..]).value)
  {
  }

  /** The same layout read field by field, the sequence number as
      `int_from_bytes` reads it. */
  lemma MessageFields(hwid: u16, seqnum: u16, opcode: byte, args: seq<byte>, m: seq<byte>)
    requires m == LE16(hwid) + LE16(seqnum) + [Lst] + ([opcode] + args)
    ensures |m| >= 6 && m[..2] == LE16(hwid) && IntFromBytes(m[2..4]) == Ok(seqnum)
    ensures m[4] == Lst && m[5] == opcode && m[6..] == args
  {
    IntFromBytesInverts(seqnum);
    assert m[2..4] == LE16(seqnum);
    assert m[6..] == args;
  }

  /** A message `bytes_from_string` builds reads back as "lst", the command's
      key and the values of the given arguments. */
  lemma StringOfBytesOfString(table: seq<CommandDef>, hwid: int, seqnum: int, s: Str)
    requires DistinctOpcodes(table) && AllFramed(table)
    requires BytesFromString(table, hwid, seqnum, s).Ok?
    ensures var tokens := Words(s);
            var c := FindByKey(table, tokens[1]).value;
            StringFromBytes(table, BytesFromString(table, hwid, seqnum, s).value) ==
              CommandLine(c.key, Join(ShowAll(CanonicalAll(c.args, tokens[2..]))))
  {
    var tokens := Words(s);
    var c := FindByKey(table, tokens[1]).value;
    var m := BytesFromString(table, hwid, seqnum, s).value;
    BytesFromStringLayout(table, hwid, seqnum, s);
    MessageFields(hwid, seqnum, c.opcode, EncodeArgs(c.args, c.optionalArgs, tokens[2..]).value, m);
    DecodeEncodeArgs(c.args, c.optionalArgs, tokens[2..]);
    FindOwnOpcode(table, c);
  }

  /** The command line's words are "lst", the key and the argument words. */
  lemma WordsOfCommandLine(key: Str, ws: seq<Str>)
    requires IsWord(key) && forall k :: 0 <= k < |ws| ==> IsWord(ws[k])
    ensures Words(CommandLine(key, Join(ws))) == [LstWord, key] + ws
  {
    LstIsWord();
    WordsOfJoin(ws);
    WordsOfTwo(LstWord, key, Join(ws));
  }

  lemma LstIsWord()
    ensures IsWord(LstWord) && Space == [' ']
  {
    assert LstWord == ['l', 's', 't'];
  }

  lemma WordsOfTwo(w1: Str, w2: Str, j: Str)
    requires IsWord(w1) && IsWord(w2)
    ensures Words(w1 + ([' '] + (w2 + ([' '] + j)))) == [w1, w2] + Words(j)
  {
    WordThenSpace(w2, j);
    WordThenSpace(w1, w2 + ([' '] + j));
  }

  /** A word followed by a space is the first word of the text. */
  lemma WordThenSpace(w: Str, rest: Str)
    requires IsWord(w)
    ensures Words(w + ([' '] + rest)) == [w] + Words(rest)
  {
    var sp: Str := [' '];
    WordsAfterSpace(rest);
    WordsOfWord(w, sp + rest);
  }

  lemma DecimalTextIsWord(v: int)
    ensures IsWord(DecimalText(v))
  {
    var m := if v < 0 then -v else v;
    var d := Digits(m);
    assert forall i :: 0 <= i < |d| ==> !IsSpace(d[i]);
    if v < 0 {
      var t := DecimalText(v);
      assert forall i :: 1 <= i < |t| ==> t[i] == d[i - 1];
    }
  }

  /** The printed values of fixed-width arguments are single words that
      encode as the original tokens did. */
  lemma {:induction false} ShownReencode(args: seq<Argument>, tokens: seq<Str>)
    requires |tokens| <= |args| && AllConvert(args, tokens)
    requires forall k :: 0 <= k < |args| ==> FixedWidth(args[k])
    ensures var shown := ShowAll(CanonicalAll(args, tokens));
            forall k :: 0 <= k < |tokens| ==>
              IsWord(shown[k]) && ArgToBytes(args[k], shown[k]) == ArgToBytes(args[k], tokens[k])
  {
    var shown := ShowAll(CanonicalAll(args, tokens));
    forall k | 0 <= k < |tokens|
      ensures IsWord(shown[k]) && ArgToBytes(args[k], shown[k]) == ArgToBytes(args[k], tokens[k])
    {
      CanonicalReencodes(args[k], tokens[k]);
      if args[k].IntegerArg? {
        DecimalTextIsWord(ParseLiteral(tokens[k]).value);
      } else {
        var bs := ArgToBytes(args[k], tokens[k]).value;
        FixedWidthBytes(args[k], tokens[k]);
        NoSpaceHex(bs);
      }
    }
  }

  /** Tokens that encode alike argument by argument encode alike as a list. */
  lemma {:induction false} EncodeArgsPointwise(args: seq<Argument>, optional: nat, t1: seq<Str>, t2: seq<Str>)
    requires |t1| == |t2| <= |args|
    requires forall k :: 0 <= k < |t1| ==> ArgToBytes(args[k], t1[k]) == ArgToBytes(args[k], t2[k])
    ensures EncodeArgs(args, optional, t1) == EncodeArgs(args, optional, t2)
    decreases |args|
  {
    if args != [] && t1 != [] {
      assert ArgToBytes(args[0], t1[0]) == ArgToBytes(args[0], t2[0]);
      EncodeArgsPointwise(args[1..], optional, t1[1..], t2[1..]);
    }
  }

  /** For a command whose arguments all have fixed widths, translating the
      text `string_from_bytes` prints for a message back with the same hwid
      and seqnum rebuilds the message byte for byte. */
  lemma BytesOfStringOfBytes(table: seq<CommandDef>, hwid: int, seqnum: int, s: Str)
    requires DistinctOpcodes(table) && DistinctKeys(table) && AllFramed(table)
    requires BytesFromString(table, hwid, seqnum, s).Ok?
    requires var c := FindByKey(table, Words(s)[1]).value;
             forall k :: 0 <= k < |c.args| ==> FixedWidth(c.args[k])
    ensures var m := BytesFromString(table, hwid, seqnum, s).value;
            BytesFromString(table, hwid, seqnum, StringFromBytes(table, m)) == Ok(m)
  {
    var m := BytesFromString(table, hwid, seqnum, s).value;
    var tokens := Words(s);
    var c := FindByKey(table, tokens[1]).value;
    var args := tokens[2..];
    BytesFromStringLayout(table, hwid, seqnum, s);
    StringOfBytesOfString(table, hwid, seqnum, s);
    var shown := ShowAll(CanonicalAll(c.args, args));
    ShownReencode(c.args, args);
    WordsOfCommandLine(c.key, shown);
    var line := StringFromBytes(table, m);
    assert Words(line) == [LstWord, c.key] + shown;
    assert Words(line)[2..] == shown;
    FindOwnKey(table, c);
    EncodeArgsPointwise(c.args, c.optionalArgs, shown, args);
  }
}
