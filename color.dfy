/**
 * The integer side of color.c: the hex-digit table, the "#RRGGBB[AA]" parser, the ARGB channel
 * split and the string dispatch. A colour is represented by the four bytes handed to
 * `cobj_color_convert_rgba`, before its division by 255.0.
 */
module Colors {
  import opened Machine

  /** The r, g, b, a bytes of a colour. */
  datatype Rgba = Rgba(r: Byte, g: Byte, b: Byte, a: Byte)

  /** COBJ_COLOR_TRANSPARENT: every channel 0. */
  const TRANSPARENT: Rgba := Rgba(0, 0, 0, 0)

  /** UINT8_MAX, the "not a digit" answer of `_hex_to_int`. */
  const NOT_HEX: Byte := 255

  // ---------------------------------------------------------------------------------------------
  // Hex digits

  predicate IsHexDigit(c: char)
  {
    '0' <= c <= '9' || 'a' <= c <= 'f' || 'A' <= c <= 'F'
  }

  /** The value of a hex digit, by character arithmetic. */
  function DigitValue(c: char): (d: nat)
    requires IsHexDigit(c)
    ensures d < 16
  {
    if '0' <= c <= '9' then c as int - '0' as int
    else if 'a' <= c <= 'f' then c as int - 'a' as int + 10
    else c as int - 'A' as int + 10
  }

  /** `_hex_to_int`: the switch over the 22 digit characters; anything else is UINT8_MAX. */
  function HexToInt(c: char): (v: Byte)
    ensures IsHexDigit(c) <==> v != NOT_HEX
    ensures IsHexDigit(c) <==> v < 16
    ensures IsHexDigit(c) ==> v == DigitValue(c)
  {
    match c
    case '0' => 0x0
    case '1' => 0x1
    case '2' => 0x2
    case '3' => 0x3
    case '4' => 0x4
    case '5' => 0x5
    case '6' => 0x6
    case '7' => 0x7
    case '8' => 0x8
    case '9' => 0x9
    case 'a' => 0xA
    case 'A' => 0xA
    case 'b' => 0xB
    case 'B' => 0xB
    case 'c' => 0xC
    case 'C' => 0xC
    case 'd' => 0xD
    case 'D' => 0xD
    case 'e' => 0xE
    case 'E' => 0xE
    case 'f' => 0xF
    case 'F' => 0xF
    case _ => NOT_HEX
  }

  /** Lower- and upper-case digits are read alike. */
  lemma HexCaseInsensitive(c: char)
    requires 'a' <= c <= 'f'
    ensures HexToInt(c) == HexToInt((c as int - 32) as char) == c as int - 'a' as int + 10
  {
  }

  // ---------------------------------------------------------------------------------------------
  // C strings

  /**
   * A `const char *` is modelled by the characters of its buffer; a read at or past the end sees
   * the terminating NUL.
   */
  function At(s: seq<char>, i: nat): char
  {
    if i < |s| then s[i] else '\0'
  }

  /** strlen: the characters before the first NUL. */
  function CLen(s: seq<char>): (k: nat)
    ensures k <= |s| && At(s, k) == '\0'
    ensures forall j :: 0 <= j < k ==> s[j] != '\0'
  {
    if |s| == 0 || s[0] == '\0' then 0
    else
      var k := 1 + CLen(s[1..]);
      assert forall j :: 1 <= j < k ==> s[j] == s[1..][j - 1];
      k
  }

  /** A buffer without NUL is read in full. */
  lemma {:induction false} CLenNoNul(s: seq<char>)
    requires forall j :: 0 <= j < |s| ==> s[j] != '\0'
    ensures CLen(s) == |s|
  {
    if |s| > 0 {
      assert forall j :: 0 <= j < |s[1..]| ==> s[1..][j] == s[j + 1];
      CLenNoNul(s[1..]);
    }
  }

  // ---------------------------------------------------------------------------------------------
  // _convert_hex

  /** The initial contents of `v`: every nibble 0, except the alpha pair 0xF, 0xF. */
  const DEFAULT_NIBBLES: seq<Byte> := [0x0, 0x0, 0x0, 0x0, 0x0, 0x0, 0xF, 0xF]

  /** How many characters the loop of `_convert_hex` reads: up to 8, stopping at the NUL. */
  function ScanLen(s: seq<char>): (k: nat)
    ensures k <= 8 && k <= CLen(s)
  {
    if CLen(s) < 8 then CLen(s) else 8
  }

  /** The contents of `v` after the loop: the first ScanLen entries are read, the rest keep their defaults. */
  function Nibbles(s: seq<char>): (v: seq<Byte>)
    ensures |v| == 8
  {
    seq(8, j requires 0 <= j < 8 => if j < ScanLen(s) then HexToInt(s[j]) else DEFAULT_NIBBLES[j])
  }

  /** `(hi << 4) + lo` passed to a uint8_t parameter: reduced modulo 256. */
  function Channel(hi: Byte, lo: Byte): Byte
  {
    (hi * 16 + lo) % 256
  }

  function Assemble(v: seq<Byte>): Rgba
    requires |v| == 8
  {
    Rgba(Channel(v[0], v[1]), Channel(v[2], v[3]), Channel(v[4], v[5]), Channel(v[6], v[7]))
  }

  /** The strings `_convert_hex` accepts without setting `*err`: 6 or 8 hex digits and nothing after. */
  predicate Accepted(s: seq<char>)
  {
    (CLen(s) == 6 || CLen(s) == 8) && forall j :: 0 <= j < CLen(s) ==> IsHexDigit(s[j])
  }

  /**
   * `_convert_hex`: read up to 8 characters into the nibble array, flag every non-digit, then
   * flag a digit count other than 6 or 8 or a ninth character. `*err` (errIn) is only ever set,
   * never cleared.
   */
  method ConvertHex(str: seq<char>, errIn: bool) returns (c: Rgba, err: bool)
    ensures err <==> errIn || !Accepted(str)
    ensures c == Assemble(Nibbles(str))
  {
    var v := new Byte[8](j => if 0 <= j < 8 then DEFAULT_NIBBLES[j] else 0);
    err := errIn;
    var i := 0;
    while i < 8 && At(str, i) != '\0'
      invariant 0 <= i <= 8 && i <= CLen(str)
      invariant forall j :: 0 <= j < i ==> v[j] == HexToInt(str[j])
      invariant forall j :: i <= j < 8 ==> v[j] == DEFAULT_NIBBLES[j]
      invariant err <==> errIn || exists j :: 0 <= j < i && !IsHexDigit(str[j])
    {
      v[i] := HexToInt(At(str, i));
      if v[i] == NOT_HEX {
        err := true;
      }
      i := i + 1;
    }
    assert i == ScanLen(str);
    if (i != 6 && i != 8) || At(str, i) != '\0' {
      err := true;
    }
    assert v[..] == Nibbles(str);
    c := Assemble(v[..]);
  }

  /** An accepted string of 6 digits leaves the alpha nibbles at their defaults: the colour is opaque. */
  lemma SixDigitsOpaque(s: seq<char>)
    requires Accepted(s) && CLen(s) == 6
    ensures Assemble(Nibbles(s)).a == 255
  {
  }

  /** An accepted string gives each channel the value of its pair of digits. */
  lemma AcceptedChannels(s: seq<char>)
    requires Accepted(s)
    ensures var c := Assemble(Nibbles(s));
      c.r == 16 * DigitValue(s[0]) + DigitValue(s[1]) &&
      c.g == 16 * DigitValue(s[2]) + DigitValue(s[3]) &&
      c.b == 16 * DigitValue(s[4]) + DigitValue(s[5]) &&
      c.a == (if CLen(s) == 8 then 16 * DigitValue(s[6]) + DigitValue(s[7]) else 255)
  {
    var v := Nibbles(s);
    assert ScanLen(s) == CLen(s);
    assert forall j :: 0 <= j < CLen(s) ==> v[j] == DigitValue(s[j]);
    assert forall j :: 0 <= j < 8 ==> v[j] < 16;
    SmallChannel(v[0], v[1]);
    SmallChannel(v[2], v[3]);
    SmallChannel(v[4], v[5]);
    SmallChannel(v[6], v[7]);
  }

  /** Two nibbles make a byte without truncation. */
  lemma SmallChannel(hi: Byte, lo: Byte)
    requires hi < 16 && lo < 16
    ensures Channel(hi, lo) == 16 * hi + lo
  {
  }

  /** The channels of a colour in the order of the nibble pairs: red, green, blue, alpha. */
  function Channels(c: Rgba): (cs: seq<Byte>)
    ensures |cs| == 4 && cs[0] == c.r && cs[1] == c.g && cs[2] == c.b && cs[3] == c.a
  {
    [c.r, c.g, c.b, c.a]
  }

  /**
   * A non-digit reads as 0xFF, so a pair of them in the scanned text rejects the string and gives
   * its channel (0xFF << 4) + 0xFF truncated to 8 bits, 0xEF.
   */
  lemma NonDigitPair(s: seq<char>, k: nat)
    requires k < 4 && 2 * k + 1 < ScanLen(s)
    requires !IsHexDigit(s[2 * k]) && !IsHexDigit(s[2 * k + 1])
    ensures !Accepted(s)
    ensures Channels(Assemble(Nibbles(s)))[k] == 0xEF
  {
    var v := Nibbles(s);
    assert v[2 * k] == NOT_HEX && v[2 * k + 1] == NOT_HEX;
    assert Channel(NOT_HEX, NOT_HEX) == 0xEF;
    assert Channels(Assemble(v))[k] == Channel(v[2 * k], v[2 * k + 1]);
  }

  // ---------------------------------------------------------------------------------------------
  // Formatting, the inverse used to state the round trip

  /** The upper-case hex digit of d. */
  function HexDigit(d: nat): (c: char)
    requires d < 16
    ensures IsHexDigit(c) && DigitValue(c) == d
  {
    if d < 10 then ('0' as int + d) as char else ('A' as int + d - 10) as char
  }

  function HexByte(x: Byte): seq<char>
  {
    [HexDigit(x / 16), HexDigit(x % 16)]
  }

  /** "RRGGBBAA" for a colour. */
  function FormatHex8(c: Rgba): (s: seq<char>)
    ensures |s| == 8
  {
    HexByte(c.r) + HexByte(c.g) + HexByte(c.b) + HexByte(c.a)
  }

  /** "RRGGBB" for a colour's r, g and b. */
  function FormatHex6(c: Rgba): (s: seq<char>)
    ensures |s| == 6
  {
    HexByte(c.r) + HexByte(c.g) + HexByte(c.b)
  }

  lemma HexByteDigits(x: Byte)
    ensures IsHexDigit(HexByte(x)[0]) && IsHexDigit(HexByte(x)[1])
    ensures 16 * DigitValue(HexByte(x)[0]) + DigitValue(HexByte(x)[1]) == x
  {
  }

  /** Parsing what FormatHex8 prints is accepted and gives the colour back. */
  lemma Hex8RoundTrip(c: Rgba)
    ensures Accepted(FormatHex8(c))
    ensures Assemble(Nibbles(FormatHex8(c))) == c
  {
    var s := FormatHex8(c);
    HexByteDigits(c.r);
    HexByteDigits(c.g);
    HexByteDigits(c.b);
    HexByteDigits(c.a);
    assert s[0..2] == HexByte(c.r) && s[2..4] == HexByte(c.g) && s[4..6] == HexByte(c.b) && s[6..8] == HexByte(c.a);
    assert forall j :: 0 <= j < 8 ==> IsHexDigit(s[j]);
    CLenNoNul(s);
    AcceptedChannels(s);
  }

  /** Parsing what FormatHex6 prints is accepted and gives the colour back with alpha 255. */
  lemma Hex6RoundTrip(c: Rgba)
    ensures Accepted(FormatHex6(c))
    ensures Assemble(Nibbles(FormatHex6(c))) == c.(a := 255)
  {
    var s := FormatHex6(c);
    HexByteDigits(c.r);
    HexByteDigits(c.g);
    HexByteDigits(c.b);
    assert s[0..2] == HexByte(c.r) && s[2..4] == HexByte(c.g) && s[4..6] == HexByte(c.b);
    assert forall j :: 0 <= j < 6 ==> IsHexDigit(s[j]);
    CLenNoNul(s);
    AcceptedChannels(s);
  }

  // ---------------------------------------------------------------------------------------------
  // cobj_color_convert_argb_uint

  /** 2^32: the modulus of uint32_t. */
  const U32: nat := 0x1_0000_0000

  /** `cobj_color_convert_argb_uint`: r from bits 16..23, g from 8..15, b from 0..7, a from 24..31. */
  function ConvertArgbUint(argb: nat): (c: Rgba)
    requires argb < U32
  {
    Rgba((argb / 0x1_0000) % 0x100, (argb / 0x100) % 0x100, argb % 0x100, (argb / 0x100_0000) % 0x100)
  }

  /** The ARGB word of four channels: a in the top byte, then r, g, b. */
  function PackArgb(c: Rgba): (argb: nat)
    ensures argb < U32
  {
    c.a * 0x100_0000 + c.r * 0x1_0000 + c.g * 0x100 + c.b
  }

  /** Splitting a packed word gives the channels back. */
  lemma SplitPack(c: Rgba)
    ensures ConvertArgbUint(PackArgb(c)) == c
  {
    var w := PackArgb(c);
    assert w % 0x100 == c.b;
    assert w / 0x100 == c.a * 0x1_0000 + c.r * 0x100 + c.g;
    assert w / 0x1_0000 == c.a * 0x100 + c.r;
    assert w / 0x100_0000 == c.a;
  }

  /** Every 32-bit word is the packing of its split: no bit is lost or shared. */
  lemma PackSplit(argb: nat)
    requires argb < U32
    ensures PackArgb(ConvertArgbUint(argb)) == argb
  {
    var b, g, r, a := argb % 0x100, (argb / 0x100) % 0x100, (argb / 0x1_0000) % 0x100, argb / 0x100_0000;
    assert argb / 0x100 == (argb / 0x1_0000) * 0x100 + g;
    assert argb / 0x1_0000 == a * 0x100 + r;
  }

  // ---------------------------------------------------------------------------------------------
  // cobj_color_convert_str

  /**
   * `cobj_color_convert_str`: NULL gives TRANSPARENT and a failure; "#..." is parsed as hex;
   * anything else goes through `strtoul`, whose result is a parameter here (`parsed`, and whether
   * it consumed any character) and is truncated to uint32_t. `*err` is written only when the
   * caller passes an error pointer (`wantErr`), and then receives the failure flag.
   */
  method ConvertStr(str: Option<seq<char>>, wantErr: bool, parsed: Word, consumed: bool)
    returns (c: Rgba, err: Option<bool>)
    ensures wantErr <==> err.Some?
    ensures str.None? ==> c == TRANSPARENT && err == (if wantErr then Some(true) else None)
    ensures str.Some? && At(str.value, 0) == '#' ==>
      c == Assemble(Nibbles(str.value[1..])) &&
      err == (if wantErr then Some(!Accepted(str.value[1..])) else None)
    ensures str.Some? && At(str.value, 0) != '#' ==>
      c == ConvertArgbUint(parsed % U32) && err == (if wantErr then Some(!consumed) else None)
  {
    var fail := false;
    if str.None? {
      fail := true;
      c := TRANSPARENT;
    } else if At(str.value, 0) == '#' {
      c, fail := ConvertHex(str.value[1..], fail);
    } else {
      // _convert_ulong: the unsigned long from strtoul stored into a uint32_t
      var u := parsed % U32;
      if !consumed {
        fail := true;
      }
      c := ConvertArgbUint(u);
    }
    err := if wantErr then Some(fail) else None;
  }
}
