/** UTF-8, as `Buffer.from(s)` (encode) and `buf.toString("utf-8")` (decode)
    use it. Decoding follows the WHATWG decoder: each maximal ill-formed
    subsequence becomes one U+FFFD. */
module Utf8 {

  type Byte = x: int | 0 <= x < 256

  const Replacement: char := '\U{FFFD}'

  /** The UTF-8 bytes of one Unicode scalar value. */
  function EncodeChar(c: char): (r: seq<Byte>)
    ensures 1 <= |r| <= 4
  {
    var n := c as int;
    if n < 0x80 then [n]
    else if n < 0x800 then [0xC0 + n / 64, 0x80 + n % 64]
    else if n < 0x10000 then [0xE0 + n / 4096, 0x80 + (n / 64) % 64, 0x80 + n % 64]
    else [0xF0 + n / 262144, 0x80 + (n / 4096) % 64, 0x80 + (n / 64) % 64, 0x80 + n % 64]
  }

  /** `Buffer.from(s, "utf-8")`. */
  function Encode(s: string): seq<Byte> {
    if s == "" then [] else EncodeChar(s[0]) + Encode(s[1..])
  }

  /** The byte at `i` exists and lies in `lo..hi`. */
  predicate InRange(b: seq<Byte>, i: nat, lo: int, hi: int) {
    i < |b| && lo <= b[i] <= hi
  }

  /** The scalar value `n`, or U+FFFD when `n` is not one. */
  function ToChar(n: int): char {
    if 0 <= n < 0xD800 || 0xE000 <= n < 0x110000 then n as char else Replacement
  }

  /** One step of the decoder: the next character and how many bytes it used.
      A lead byte fixes how many continuation bytes follow and the range the
      first of them must lie in; a missing or out-of-range continuation byte
      ends the subsequence, which decodes to U+FFFD, and is not consumed. */
  function DecodeStep(b: seq<Byte>): (r: (char, nat))
    requires b != []
    ensures 1 <= r.1 <= |b|
  {
    var b0: int := b[0];
    if b0 < 0x80 then (b0 as char, 1)
    else if 0xC2 <= b0 <= 0xDF then
      if !InRange(b, 1, 0x80, 0xBF) then (Replacement, 1)
      else (ToChar((b0 - 0xC0) * 64 + (b[1] as int - 0x80)), 2)
    else if 0xE0 <= b0 <= 0xEF then
      var lo := if b0 == 0xE0 then 0xA0 else 0x80;
      var hi := if b0 == 0xED then 0x9F else 0xBF;
      if !InRange(b, 1, lo, hi) then (Replacement, 1)
      else if !InRange(b, 2, 0x80, 0xBF) then (Replacement, 2)
      else (ToChar((b0 - 0xE0) * 4096 + (b[1] as int - 0x80) * 64 + (b[2] as int - 0x80)), 3)
    else if 0xF0 <= b0 <= 0xF4 then
      var lo := if b0 == 0xF0 then 0x90 else 0x80;
      var hi := if b0 == 0xF4 then 0x8F else 0xBF;
      if !InRange(b, 1, lo, hi) then (Replacement, 1)
      else if !InRange(b, 2, 0x80, 0xBF) then (Replacement, 2)
      else if !InRange(b, 3, 0x80, 0xBF) then (Replacement, 3)
      else (ToChar((b0 - 0xF0) * 262144 + (b[1] as int - 0x80) * 4096 + (b[2] as int - 0x80) * 64 + (b[3] as int - 0x80)), 4)
    else (Replacement, 1)
  }

  /** `buf.toString("utf-8")`. */
  function Decode(b: seq<Byte>): string
    decreases |b|
  {
    if b == [] then "" else [DecodeStep(b).0] + Decode(b[DecodeStep(b).1..])
  }

  lemma DecodeTwo(n: int, rest: seq<Byte>)
    requires 0x80 <= n < 0x800
    ensures DecodeStep([0xC0 + n / 64, 0x80 + n % 64] + rest) == (ToChar(n), 2)
  {
    var b := [0xC0 + n / 64, 0x80 + n % 64] + rest;
    assert b[0] == 0xC0 + n / 64 && b[1] == 0x80 + n % 64;
    assert (n / 64) * 64 + n % 64 == n;
  }

  lemma DecodeThree(n: int, rest: seq<Byte>)
    requires 0x800 <= n < 0x10000 && !(0xD800 <= n < 0xE000)
    ensures DecodeStep([0xE0 + n / 4096, 0x80 + (n / 64) % 64, 0x80 + n % 64] + rest) == (ToChar(n), 3)
  {
    var q := n / 64;
    var b := [0xE0 + n / 4096, 0x80 + q % 64, 0x80 + n % 64] + rest;
    assert b[0] == 0xE0 + n / 4096 && b[1] == 0x80 + q % 64 && b[2] == 0x80 + n % 64;
    assert n / 4096 == q / 64;
    assert (q / 64) * 64 + q % 64 == q;
    assert q * 64 + n % 64 == n;
    if n / 4096 == 0 { assert q >= 32; }
    if n / 4096 == 13 { assert q < 0xD800 / 64; }
    assert (b[0] - 0xE0) * 4096 + (b[1] - 0x80) * 64 + (b[2] - 0x80) == n;
  }

  lemma DecodeFour(n: int, rest: seq<Byte>)
    requires 0x10000 <= n < 0x110000
    ensures DecodeStep([0xF0 + n / 262144, 0x80 + (n / 4096) % 64, 0x80 + (n / 64) % 64, 0x80 + n % 64] + rest) == (ToChar(n), 4)
  {
    var q := n / 64;
    var p := q / 64;
    assert n / 4096 == p;
    assert n / 262144 == p / 64;
    var b := [0xF0 + p / 64, 0x80 + p % 64, 0x80 + q % 64, 0x80 + n % 64] + rest;
    assert b[0] == 0xF0 + p / 64 && b[1] == 0x80 + p % 64 && b[2] == 0x80 + q % 64 && b[3] == 0x80 + n % 64;
    assert (p / 64) * 64 + p % 64 == p;
    assert p * 64 + q % 64 == q;
    assert q * 64 + n % 64 == n;
    if p / 64 == 0 { assert p >= 16; }
    if p / 64 == 4 { assert p < 0x110000 / 4096; }
    assert (b[0] - 0xF0) * 262144 + (b[1] - 0x80) * 4096 + (b[2] - 0x80) * 64 + (b[3] - 0x80) == n;
  }

  /** The decoder reads one encoded character back, whatever follows it. */
  lemma DecodeStepEncodeChar(c: char, rest: seq<Byte>)
    ensures DecodeStep(EncodeChar(c) + rest) == (c, |EncodeChar(c)|)
  {
    var n := c as int;
    if n < 0x80 {
    } else if n < 0x800 {
      DecodeTwo(n, rest);
    } else if n < 0x10000 {
      DecodeThree(n, rest);
    } else {
      DecodeFour(n, rest);
    }
  }

  /** Decoding inverts encoding on every string (Dafny strings hold only
      scalar values, so there are no lone surrogates). */
  lemma {:induction false} DecodeEncode(s: string)
    ensures Decode(Encode(s)) == s
  {
    if s != "" {
      var e := EncodeChar(s[0]);
      var rest := Encode(s[1..]);
      DecodeStepEncodeChar(s[0], rest);
      assert (e + rest)[|e|..] == rest;
      DecodeEncode(s[1..]);
    }
  }
}
