/** The standard, padded Base64 alphabet of section 4 of RFC 4648 with strict decoding. */
module Base64 {
  import opened Wrappers

  type Byte = b: nat | b < 256
  type Sextet = v: nat | v < 64

  function Symbol(v: Sextet): char {
    if v < 26 then (65 + v) as char
    else if v < 52 then (97 + v - 26) as char
    else if v < 62 then (48 + v - 52) as char
    else if v == 62 then '+' else '/'
  }

  /** The value of a symbol; 64 for a character outside the alphabet, such as the padding. */
  function ValueOf(c: char): (v: nat)
    ensures v <= 64
    ensures v < 64 ==> Symbol(v) == c
  {
    if 'A' <= c <= 'Z' then c as nat - 65
    else if 'a' <= c <= 'z' then c as nat - 97 + 26
    else if '0' <= c <= '9' then c as nat - 48 + 52
    else if c == '+' then 62
    else if c == '/' then 63
    else 64
  }

  /** Cutting three bytes into four sextets, and glueing them together again. */
  function Cut(x: Byte, y: Byte, z: Byte): (Sextet, Sextet, Sextet, Sextet) {
    (x / 4, x % 4 * 16 + y / 16, y % 16 * 4 + z / 64, z % 64)
  }

  function Glue(a: Sextet, b: Sextet, c: Sextet, d: Sextet): (Byte, Byte, Byte) {
    (a * 4 + b / 16, b % 16 * 16 + c / 4, c % 4 * 64 + d)
  }

  lemma Digits4(high: nat, low: nat)
    requires low < 4
    ensures (high * 4 + low) / 4 == high && (high * 4 + low) % 4 == low
  {
  }

  lemma Digits16(high: nat, low: nat)
    requires low < 16
    ensures (high * 16 + low) / 16 == high && (high * 16 + low) % 16 == low
  {
  }

  lemma Digits64(high: nat, low: nat)
    requires low < 64
    ensures (high * 64 + low) / 64 == high && (high * 64 + low) % 64 == low
  {
  }

  lemma GlueCut(x: Byte, y: Byte, z: Byte)
    ensures var (a, b, c, d) := Cut(x, y, z); Glue(a, b, c, d) == (x, y, z)
    ensures var (a, b, c, d) := Cut(x, y, z); z == 0 ==> c % 4 == 0 && d == 0
    ensures var (a, b, c, d) := Cut(x, y, z); y == z == 0 ==> b % 16 == 0 && c == 0
  {
    Digits16(x % 4, y / 16);
    Digits4(y % 16, z / 64);
  }

  lemma CutGlue(a: Sextet, b: Sextet, c: Sextet, d: Sextet)
    ensures var (x, y, z) := Glue(a, b, c, d); Cut(x, y, z) == (a, b, c, d)
  {
    var (x, y, z) := Glue(a, b, c, d);
    Digits4(a, b / 16);
    Digits16(b % 16, c / 4);
    Digits64(c % 4, d);
    assert x / 4 == a && x % 4 == b / 16;
    assert y / 16 == b % 16 && y % 16 == c / 4;
    assert z / 64 == c % 4 && z % 64 == d;
  }

  function Symbols(x: Byte, y: Byte, z: Byte): string {
    var (a, b, c, d) := Cut(x, y, z);
    [Symbol(a), Symbol(b), Symbol(c), Symbol(d)]
  }

  function Encode(bytes: seq<Byte>): string {
    if |bytes| == 0 then ""
    else if |bytes| == 1 then Symbols(bytes[0], 0, 0)[..2] + "=="
    else if |bytes| == 2 then Symbols(bytes[0], bytes[1], 0)[..3] + "="
    else Symbols(bytes[0], bytes[1], bytes[2]) + Encode(bytes[3..])
  }

  /** The bytes of a padded last block; discarded bits must be zero. */
  function DecodePadded(a: nat, b: nat, third: char): Option<seq<Byte>> {
    var c := if third == '=' then 0 else ValueOf(third);
    if a >= 64 || b >= 64 || c == 64 then None
    else
      var (x, y, z) := Glue(a, b, c, 0);
      if third == '=' then
        if b % 16 == 0 then Some([x]) else None
      else if c % 4 == 0 then Some([x, y]) else None
  }

  function DecodeBlock(a: nat, b: nat, c: nat, d: nat): Option<seq<Byte>> {
    if a >= 64 || b >= 64 || c >= 64 || d >= 64 then None
    else
      var (x, y, z) := Glue(a, b, c, d);
      Some([x, y, z])
  }

  /** Length not a multiple of four, foreign symbols, and non-zero discarded bits are all refused. */
  function Decode(s: string): Option<seq<Byte>> {
    if |s| == 0 then Some([])
    else if |s| < 4 then None
    else if |s| == 4 && s[3] == '=' then DecodePadded(ValueOf(s[0]), ValueOf(s[1]), s[2])
    else
      match DecodeBlock(ValueOf(s[0]), ValueOf(s[1]), ValueOf(s[2]), ValueOf(s[3]))
      case None => None
      case Some(block) =>
        match Decode(s[4..])
        case None => None
        case Some(rest) => Some(block + rest)
  }

  lemma ValueOfSymbol(v: Sextet)
    ensures ValueOf(Symbol(v)) == v && Symbol(v) != '='
  {
  }

  lemma {:induction false} DecodeSymbols(x: Byte, y: Byte, z: Byte)
    ensures var s := Symbols(x, y, z);
            && s[3] != '='
            && DecodeBlock(ValueOf(s[0]), ValueOf(s[1]), ValueOf(s[2]), ValueOf(s[3])) == Some([x, y, z])
            && (z == 0 ==> DecodePadded(ValueOf(s[0]), ValueOf(s[1]), s[2]) == Some([x, y]))
            && (y == z == 0 ==> DecodePadded(ValueOf(s[0]), ValueOf(s[1]), '=') == Some([x]))
  {
    var (a, b, c, d) := Cut(x, y, z);
    GlueCut(x, y, z);
    ValueOfSymbol(a);
    ValueOfSymbol(b);
    ValueOfSymbol(c);
    ValueOfSymbol(d);
  }

  lemma DecodeShort(x: Byte, y: Byte)
    ensures Decode(Encode([x])) == Some([x])
    ensures Decode(Encode([x, y])) == Some([x, y])
  {
    DecodeSymbols(x, 0, 0);
    DecodeSymbols(x, y, 0);
  }

  lemma {:induction false} DecodeCons(x: Byte, y: Byte, z: Byte, rest: string)
    ensures Decode(Symbols(x, y, z) + rest) ==
            match Decode(rest) case None => None case Some(bytes) => Some([x, y, z] + bytes)
  {
    DecodeSymbols(x, y, z);
    assert (Symbols(x, y, z) + rest)[4..] == rest;
  }

  lemma DecodeLong(x: Byte, y: Byte, z: Byte, tail: string, rest: seq<Byte>)
    requires Decode(tail) == Some(rest)
    ensures Decode(Symbols(x, y, z) + tail) == Some([x, y, z] + rest)
  {
    DecodeCons(x, y, z, tail);
  }

  lemma {:induction false} DecodeEncode(bytes: seq<Byte>)
    ensures Decode(Encode(bytes)) == Some(bytes)
  {
    if |bytes| == 1 {
      DecodeShort(bytes[0], 0);
      assert bytes == [bytes[0]];
    } else if |bytes| == 2 {
      DecodeShort(bytes[0], bytes[1]);
      assert bytes == [bytes[0], bytes[1]];
    } else if |bytes| > 2 {
      var rest := bytes[3..];
      DecodeEncode(rest);
      assert Encode(bytes) == Symbols(bytes[0], bytes[1], bytes[2]) + Encode(rest);
      DecodeLong(bytes[0], bytes[1], bytes[2], Encode(rest), rest);
      assert bytes == [bytes[0], bytes[1], bytes[2]] + rest;
    }
  }

  lemma EncodePadded(s: string)
    requires |s| == 4 && s[3] == '='
    requires DecodePadded(ValueOf(s[0]), ValueOf(s[1]), s[2]).Some?
    ensures Encode(DecodePadded(ValueOf(s[0]), ValueOf(s[1]), s[2]).value) == s
  {
    var c := if s[2] == '=' then 0 else ValueOf(s[2]);
    CutGlue(ValueOf(s[0]), ValueOf(s[1]), c, 0);
  }

  lemma EncodeBlock(s: string)
    requires |s| == 4
    requires DecodeBlock(ValueOf(s[0]), ValueOf(s[1]), ValueOf(s[2]), ValueOf(s[3])).Some?
    ensures var block := DecodeBlock(ValueOf(s[0]), ValueOf(s[1]), ValueOf(s[2]), ValueOf(s[3])).value;
            |block| == 3 && Symbols(block[0], block[1], block[2]) == s
  {
    CutGlue(ValueOf(s[0]), ValueOf(s[1]), ValueOf(s[2]), ValueOf(s[3]));
  }

  /** Strict decoding leaves one spelling per byte string. */
  lemma {:induction false} EncodeDecode(s: string)
    requires Decode(s).Some?
    ensures Encode(Decode(s).value) == s
  {
    if |s| == 0 {
    } else if |s| == 4 && s[3] == '=' {
      EncodePadded(s);
    } else {
      var bytes := Decode(s).value;
      EncodeBlock(s[..4]);
      EncodeDecode(s[4..]);
      assert bytes[3..] == Decode(s[4..]).value;
      assert s == s[..4] + s[4..];
    }
  }

  /** The last example of section 10 of RFC 4648, "foobar". */
  lemma FoobarExample()
    ensures Encode([102, 111, 111, 98, 97, 114]) == "Zm9vYmFy"
  {
    var text: seq<Byte> := [102, 111, 111, 98, 97, 114];
    var tail: seq<Byte> := [98, 97, 114];
    assert text[3..] == tail;
    assert Symbols(102, 111, 111) == "Zm9v";
    assert Symbols(98, 97, 114) == "YmFy";
    assert tail[3..] == [];
    assert Encode(tail) == "YmFy" + Encode(tail[3..]);
    assert Encode(text) == "Zm9v" + Encode(tail);
  }
}
