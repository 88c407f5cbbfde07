/** Base64 as Node's `Buffer` uses it: encoding is the standard alphabet of
    RFC 4648 section 4 with `=` padding; decoding (`Buffer.from(t, "base64")`)
    is lenient: it also accepts the URL-safe letters `-` and `_`, skips any
    other character outside the alphabet, stops at the first `=`, and decodes
    a trailing group of two or three symbols to one or two bytes. */
module Base64 {
  import opened Wrappers
  import opened Utf8

  type Sextet = x: int | 0 <= x < 64

  /** A character of the standard alphabet. */
  predicate IsAlphabetChar(c: char) {
    'A' <= c <= 'Z' || 'a' <= c <= 'z' || '0' <= c <= '9' || c == '+' || c == '/'
  }

  /** The symbol for a 6-bit value. */
  function CharOf(v: Sextet): (c: char)
    ensures IsAlphabetChar(c)
  {
    if v < 26 then ('A' as int + v) as char
    else if v < 52 then ('a' as int + (v - 26)) as char
    else if v < 62 then ('0' as int + (v - 52)) as char
    else if v == 62 then '+'
    else '/'
  }

  /** The decoder's table: the value of a symbol of either alphabet. */
  function ValueOf(c: char): Option<Sextet> {
    if 'A' <= c <= 'Z' then Some(c as int - 'A' as int)
    else if 'a' <= c <= 'z' then Some(c as int - 'a' as int + 26)
    else if '0' <= c <= '9' then Some(c as int - '0' as int + 52)
    else if c == '+' || c == '-' then Some(62)
    else if c == '/' || c == '_' then Some(63)
    else None
  }

  lemma ValueOfCharOf(v: Sextet)
    ensures ValueOf(CharOf(v)) == Some(v)
  {
  }

  /** The symbols of a sequence of 6-bit values. */
  function Symbols(vs: seq<Sextet>): (r: string)
    ensures |r| == |vs|
    ensures forall i :: 0 <= i < |r| ==> IsAlphabetChar(r[i])
  {
    if vs == [] then "" else [CharOf(vs[0])] + Symbols(vs[1..])
  }

  /** The 6-bit values of a group of (up to) three bytes: all four for a full
      group, the first two or three for a last group of one or two bytes. */
  function GroupSextets(b0: Byte, b1: Byte, b2: Byte): seq<Sextet> {
    [b0 / 4, (b0 % 4) * 16 + b1 / 16, (b1 % 16) * 4 + b2 / 64, b2 % 64]
  }

  /** `buf.toString("base64")`: every three bytes become four symbols; a last
      group of one or two bytes is padded with `=`. */
  function Encode(b: seq<Byte>): (r: string)
    ensures |r| == 4 * ((|b| + 2) / 3)
    ensures forall i :: 0 <= i < |r| ==> IsAlphabetChar(r[i]) || r[i] == '='
  {
    if |b| == 0 then ""
    else if |b| == 1 then Symbols(GroupSextets(b[0], 0, 0)[..2]) + "=="
    else if |b| == 2 then Symbols(GroupSextets(b[0], b[1], 0)[..3]) + "="
    else Symbols(GroupSextets(b[0], b[1], b[2])) + Encode(b[3..])
  }

  /** The symbol values the decoder reads: up to the first `=`, skipping
      characters outside both alphabets. */
  function Sextets(t: string): seq<Sextet> {
    if t == "" || t[0] == '=' then []
    else match ValueOf(t[0])
      case None => Sextets(t[1..])
      case Some(v) => [v] + Sextets(t[1..])
  }

  /** Four symbol values give three bytes; a trailing two or three give one
      or two; a single trailing value gives nothing. */
  function DecodeSextets(v: seq<Sextet>): (r: seq<Byte>)
    decreases |v|
  {
    if |v| < 2 then []
    else if |v| == 2 then [(v[0] as int) * 4 + (v[1] as int) / 16]
    else if |v| == 3 then [(v[0] as int) * 4 + (v[1] as int) / 16, ((v[1] as int) % 16) * 16 + (v[2] as int) / 4]
    else
      [(v[0] as int) * 4 + (v[1] as int) / 16, ((v[1] as int) % 16) * 16 + (v[2] as int) / 4, ((v[2] as int) % 4) * 64 + v[3] as int]
      + DecodeSextets(v[4..])
  }

  /** `Buffer.from(t, "base64")`. */
  function Decode(t: string): seq<Byte> {
    DecodeSextets(Sextets(t))
  }

  /** The symbol values of an encoding, group by group. */
  function EncodedSextets(b: seq<Byte>): seq<Sextet> {
    if |b| == 0 then []
    else if |b| == 1 then GroupSextets(b[0], 0, 0)[..2]
    else if |b| == 2 then GroupSextets(b[0], b[1], 0)[..3]
    else GroupSextets(b[0], b[1], b[2]) + EncodedSextets(b[3..])
  }

  lemma {:induction false} SextetsOfSymbols(vs: seq<Sextet>, rest: string)
    ensures Sextets(Symbols(vs) + rest) == vs + Sextets(rest)
  {
    if vs != [] {
      var t := Symbols(vs);
      ValueOfCharOf(vs[0]);
      assert (t + rest)[0] == CharOf(vs[0]);
      assert (t + rest)[1..] == Symbols(vs[1..]) + rest;
      SextetsOfSymbols(vs[1..], rest);
    } else {
      assert Symbols(vs) + rest == rest;
    }
  }

  /** The decoder reads exactly the symbol values the encoder wrote. */
  lemma {:induction false} SextetsOfEncode(b: seq<Byte>)
    ensures Sextets(Encode(b)) == EncodedSextets(b)
  {
    if |b| == 0 {
    } else if |b| == 1 {
      var vs := GroupSextets(b[0], 0, 0)[..2];
      SextetsOfSymbols(vs, "==");
      assert vs + [] == vs;
    } else if |b| == 2 {
      var vs := GroupSextets(b[0], b[1], 0)[..3];
      SextetsOfSymbols(vs, "=");
      assert vs + [] == vs;
    } else {
      SextetsOfSymbols(GroupSextets(b[0], b[1], b[2]), Encode(b[3..]));
      SextetsOfEncode(b[3..]);
    }
  }

  lemma GroupRoundTrip(b0: Byte, b1: Byte, b2: Byte)
    ensures (b0 / 4) * 4 + ((b0 % 4) * 16 + b1 / 16) / 16 == b0
    ensures (((b0 % 4) * 16 + b1 / 16) % 16) * 16 + ((b1 % 16) * 4 + b2 / 64) / 4 == b1
    ensures (((b1 % 16) * 4 + b2 / 64) % 4) * 64 + b2 % 64 == b2
  {
  }

  lemma {:induction false} DecodeEncodedSextets(b: seq<Byte>)
    ensures DecodeSextets(EncodedSextets(b)) == b
  {
    if |b| == 0 {
    } else if |b| == 1 {
      DecodeLastOne(b[0]);
    } else if |b| == 2 {
      DecodeLastTwo(b[0], b[1]);
    } else {
      DecodeGroup(b[0], b[1], b[2], EncodedSextets(b[3..]));
      DecodeEncodedSextets(b[3..]);
      assert b == [b[0], b[1], b[2]] + b[3..];
    }
  }

  /** A last group of one byte is two symbols, which decode to it. */
  lemma DecodeLastOne(b0: Byte)
    ensures DecodeSextets(GroupSextets(b0, 0, 0)[..2]) == [b0]
  {
    var v := GroupSextets(b0, 0, 0)[..2];
    GroupRoundTrip(b0, 0, 0);
    assert (v[0] as int) * 4 + (v[1] as int) / 16 == b0 as int;
  }

  /** A last group of two bytes is three symbols, which decode to them. */
  lemma DecodeLastTwo(b0: Byte, b1: Byte)
    ensures DecodeSextets(GroupSextets(b0, b1, 0)[..3]) == [b0, b1]
  {
    var v := GroupSextets(b0, b1, 0)[..3];
    GroupRoundTrip(b0, b1, 0);
    assert (v[0] as int) * 4 + (v[1] as int) / 16 == b0 as int;
    assert ((v[1] as int) % 16) * 16 + (v[2] as int) / 4 == b1 as int;
  }

  /** A full group decodes to its three bytes, ahead of what follows it. */
  lemma DecodeGroup(b0: Byte, b1: Byte, b2: Byte, rest: seq<Sextet>)
    ensures DecodeSextets(GroupSextets(b0, b1, b2) + rest) == [b0, b1, b2] + DecodeSextets(rest)
  {
    GroupRoundTrip(b0, b1, b2);
    var v := GroupSextets(b0, b1, b2) + rest;
    assert v[4..] == rest;
  }

  /** Decoding inverts encoding on every byte sequence. */
  lemma DecodeEncode(b: seq<Byte>)
    ensures Decode(Encode(b)) == b
  {
    SextetsOfEncode(b);
    DecodeEncodedSextets(b);
  }
}
