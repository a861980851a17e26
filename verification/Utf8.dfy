/** Strict UTF-8 (RFC 3629): `str.encode("utf-8")` and `bytes.decode("utf-8")` on scalar values. */
module Utf8 {
  import opened Outcomes

  type Byte = b: int | 0 <= b < 256
  type Bytes = seq<Byte>

  function EncodeChar(c: char): (r: Bytes)
    ensures 1 <= |r| <= 4
  {
    var n := c as int;
    if n < 0x80 then [n]
    else if n < 0x800 then [0xC0 + n / 64, 0x80 + n % 64]
    else if n < 0x10000 then [0xE0 + n / 4096, 0x80 + n / 64 % 64, 0x80 + n % 64]
    else [0xF0 + n / 262144, 0x80 + n / 4096 % 64, 0x80 + n / 64 % 64, 0x80 + n % 64]
  }

  function Encode(s: string): Bytes {
    if s == [] then [] else EncodeChar(s[0]) + Encode(s[1..])
  }

  predicate Continuation(b: Byte) { 0x80 <= b < 0xC0 }

  /** Appends one six-bit group to the code point read so far. */
  function Group(high: int, low: int): int { high * 64 + low }

  /** The scalar value a code point stands for, refusing surrogates and values past U+10FFFF. */
  function Scalar(n: nat): Option<char> {
    if n < 0xD800 || 0xE000 <= n <= 0x10FFFF then Some(n as char) else None
  }

  /** Decodes one scalar value and says how many bytes it used; overlong forms are refused. */
  function DecodeChar(b: Bytes): (r: Option<(char, nat)>)
    ensures r.Some? ==> 1 <= r.value.1 <= |b| && r.value.1 <= 4
  {
    if b == [] then None
    else if b[0] < 0x80 then Some((b[0] as char, 1))
    else if b[0] < 0xC0 then None
    else if b[0] < 0xE0 then
      if |b| < 2 || !Continuation(b[1]) then None else
      var n := Group(b[0] - 0xC0, b[1] - 0x80);
      if n < 0x80 then None else Some((n as char, 2))
    else if b[0] < 0xF0 then
      if |b| < 3 || !Continuation(b[1]) || !Continuation(b[2]) then None else
      var n := Group(Group(b[0] - 0xE0, b[1] - 0x80), b[2] - 0x80);
      if n < 0x800 then None else
      var c :- Scalar(n);
      Some((c, 3))
    else if b[0] < 0xF8 then
      if |b| < 4 || !Continuation(b[1]) || !Continuation(b[2]) || !Continuation(b[3]) then None else
      var n := Group(Group(Group(b[0] - 0xF0, b[1] - 0x80), b[2] - 0x80), b[3] - 0x80);
      if n < 0x10000 then None else
      var c :- Scalar(n);
      Some((c, 4))
    else None
  }

  function Decode(b: Bytes): Option<string> {
    if b == [] then Some([]) else
    var (c, used) :- DecodeChar(b);
    var rest :- Decode(b[used..]);
    Some([c] + rest)
  }

  lemma DecodeEncodedChar(c: char, rest: Bytes)
    ensures DecodeChar(EncodeChar(c) + rest) == Some((c, |EncodeChar(c)|))
  {
    var n := c as int;
    assert n as char == c;
    if n < 0x80 {
    } else if n < 0x800 {
      assert (n / 64) * 64 + n % 64 == n;
    } else if n < 0x10000 {
      assert n / 64 == (n / 4096) * 64 + n / 64 % 64;
      assert (n / 4096) * 4096 + (n / 64 % 64) * 64 + n % 64 == n;
    } else {
      assert n / 64 == (n / 4096) * 64 + n / 64 % 64;
      assert n / 4096 == (n / 262144) * 64 + n / 4096 % 64;
      assert (n / 262144) * 262144 + (n / 4096 % 64) * 4096 + (n / 64 % 64) * 64 + n % 64 == n;
    }
  }

  lemma EncodeDecodedChar(b: Bytes)
    requires DecodeChar(b).Some?
    ensures var (c, used) := DecodeChar(b).value; EncodeChar(c) == b[..used]
  {
    var (c, used) := DecodeChar(b).value;
    var n: int := c as int;
    if used == 2 {
      UngroupPair(b[0] - 0xC0, b[1] - 0x80);
    } else if used == 3 {
      var x: int, y: int := b[0] - 0xE0, b[1] - 0x80;
      UngroupPair(x, y);
      UngroupPair(Group(x, y), b[2] - 0x80);
      assert n / 4096 == n / 64 / 64;
    } else if used == 4 {
      var x: int, y: int, z: int := b[0] - 0xF0, b[1] - 0x80, b[2] - 0x80;
      UngroupPair(x, y);
      UngroupPair(Group(x, y), z);
      UngroupPair(Group(Group(x, y), z), b[3] - 0x80);
      assert n / 4096 == n / 64 / 64 && n / 262144 == n / 4096 / 64;
    }
  }

  lemma UngroupPair(high: int, low: int)
    requires 0 <= low < 64
    ensures Group(high, low) / 64 == high && Group(high, low) % 64 == low
  {
  }

  lemma EncodeStep(c: char, rest: string)
    ensures Encode([c] + rest) == EncodeChar(c) + Encode(rest)
  {
    assert ([c] + rest)[1..] == rest;
  }

  lemma EncodeDecodedStep(b: Bytes)
    requires b != [] && Decode(b).Some?
    ensures var used := DecodeChar(b).value.1;
            Decode(b[used..]).Some? && Encode(Decode(b).value) == b[..used] + Encode(Decode(b[used..]).value)
  {
    var (c, used) := DecodeChar(b).value;
    EncodeDecodedChar(b);
    EncodeStep(c, Decode(b[used..]).value);
  }

  /** Decoding undoes encoding, so encoding is injective. */
  lemma {:induction false} DecodeEncode(s: string)
    ensures Decode(Encode(s)) == Some(s)
  {
    if s != [] {
      DecodeEncodedChar(s[0], Encode(s[1..]));
      assert Encode(s)[|EncodeChar(s[0])|..] == Encode(s[1..]);
      DecodeEncode(s[1..]);
      assert [s[0]] + s[1..] == s;
    }
  }

  /** Strict decoding accepts one spelling only: the encoding of what it returns. */
  lemma {:induction false} EncodeDecode(b: Bytes)
    requires Decode(b).Some?
    ensures Encode(Decode(b).value) == b
  {
    if b != [] {
      EncodeDecodedStep(b);
      var used := DecodeChar(b).value.1;
      EncodeDecode(b[used..]);
      assert b[..used] + b[used..] == b;
    }
  }

  lemma EncodeInjective(s: string, t: string)
    requires Encode(s) == Encode(t)
    ensures s == t
  {
    DecodeEncode(s);
    DecodeEncode(t);
  }
}
