/** UTF-8 as RFC 3629 defines it: Python's `text.encode("utf-8")` and the strict
    `data.decode("utf-8")`, which raises on any byte sequence section 4 of RFC 3629 rejects. */
module Utf8 {
  import opened Outcomes

  type byte = b: int | 0 <= b < 256

  predicate IsAscii(s: string) {
    forall i :: 0 <= i < |s| ==> s[i] as int < 0x80
  }

  /** The encoding of one scalar value: 1 to 4 bytes (RFC 3629 section 3). */
  function EncodeChar(c: char): (bs: seq<byte>)
    ensures 1 <= |bs| <= 4
    ensures |bs| == 1 <==> c as int < 0x80
  {
    var cp := c as int;
    if cp < 0x80 then [cp]
    else if cp < 0x800 then [0xC0 + cp / 64, 0x80 + cp % 64]
    else if cp < 0x10000 then [0xE0 + cp / 4096, 0x80 + cp / 64 % 64, 0x80 + cp % 64]
    else [0xF0 + cp / 262144, 0x80 + cp / 4096 % 64, 0x80 + cp / 64 % 64, 0x80 + cp % 64]
  }

  /** Python's `text.encode("utf-8")`. */
  function Encode(s: string): (bs: seq<byte>)
    ensures |s| <= |bs| <= 4 * |s|
    decreases |s|
  {
    if |s| == 0 then [] else EncodeChar(s[0]) + Encode(s[1..])
  }

  predicate IsTail(b: byte) {
    0x80 <= b <= 0xBF
  }

  /** The range the second byte of a three-byte sequence must lie in (RFC 3629 section 4). */
  predicate SecondOfThree(b0: byte, b1: byte) {
    if b0 == 0xE0 then 0xA0 <= b1 <= 0xBF
    else if b0 == 0xED then 0x80 <= b1 <= 0x9F
    else IsTail(b1)
  }

  /** The range the second byte of a four-byte sequence must lie in (RFC 3629 section 4). */
  predicate SecondOfFour(b0: byte, b1: byte) {
    if b0 == 0xF0 then 0x90 <= b1 <= 0xBF
    else if b0 == 0xF4 then 0x80 <= b1 <= 0x8F
    else IsTail(b1)
  }

  lemma DivMod64(q: int, r: int)
    requires 0 <= r < 64
    ensures (q * 64 + r) / 64 == q && (q * 64 + r) % 64 == r
  {
  }

  /** The character of a well-formed two-byte sequence. */
  function DecodeTwo(b0: byte, b1: byte): (c: char)
    requires 0xC2 <= b0 <= 0xDF && IsTail(b1)
    ensures EncodeChar(c) == [b0, b1]
  {
    var x: int, y: int := b0 - 0xC0, b1 - 0x80;
    var cp := x * 64 + y;
    DivMod64(x, y);
    cp as char
  }

  /** The character of a well-formed three-byte sequence. */
  function DecodeThree(b0: byte, b1: byte, b2: byte): (c: char)
    requires 0xE0 <= b0 <= 0xEF && SecondOfThree(b0, b1) && IsTail(b2)
    ensures EncodeChar(c) == [b0, b1, b2]
  {
    var x: int, y: int, z: int := b0 - 0xE0, b1 - 0x80, b2 - 0x80;
    var cp := (x * 64 + y) * 64 + z;
    DivMod64(x * 64 + y, z);
    DivMod64(x, y);
    assert cp / 4096 == cp / 64 / 64 == x;
    cp as char
  }

  /** The character of a well-formed four-byte sequence. */
  function DecodeFour(b0: byte, b1: byte, b2: byte, b3: byte): (c: char)
    requires 0xF0 <= b0 <= 0xF4 && SecondOfFour(b0, b1) && IsTail(b2) && IsTail(b3)
    ensures EncodeChar(c) == [b0, b1, b2, b3]
  {
    var x: int, y: int, z: int, w: int := b0 - 0xF0, b1 - 0x80, b2 - 0x80, b3 - 0x80;
    var cp := ((x * 64 + y) * 64 + z) * 64 + w;
    DivMod64((x * 64 + y) * 64 + z, w);
    DivMod64(x * 64 + y, z);
    DivMod64(x, y);
    assert cp / 4096 == cp / 64 / 64 == x * 64 + y;
    assert cp / 262144 == cp / 4096 / 64 == x;
    cp as char
  }

  /** The character `bs` starts with and the number of bytes encoding it, when `bs` starts
      with a well-formed sequence; each such sequence is exactly the encoding of its
      character. */
  function DecodeFirst(bs: seq<byte>): (r: Option<(char, nat)>)
    ensures r.Some? ==> 1 <= r.value.1 <= |bs|
    ensures r.Some? ==> EncodeChar(r.value.0) == bs[..r.value.1]
  {
    if |bs| == 0 then None
    else
      var b0 := bs[0];
      if b0 < 0x80 then
        Some((b0 as char, 1))
      else if 0xC2 <= b0 <= 0xDF then
        if |bs| >= 2 && IsTail(bs[1]) then
          assert bs[..2] == [b0, bs[1]];
          Some((DecodeTwo(b0, bs[1]), 2))
        else None
      else if 0xE0 <= b0 <= 0xEF then
        if |bs| >= 3 && SecondOfThree(b0, bs[1]) && IsTail(bs[2]) then
          assert bs[..3] == [b0, bs[1], bs[2]];
          Some((DecodeThree(b0, bs[1], bs[2]), 3))
        else None
      else if 0xF0 <= b0 <= 0xF4 then
        if |bs| >= 4 && SecondOfFour(b0, bs[1]) && IsTail(bs[2]) && IsTail(bs[3]) then
          assert bs[..4] == [b0, bs[1], bs[2], bs[3]];
          Some((DecodeFour(b0, bs[1], bs[2], bs[3]), 4))
        else None
      else None
  }

  /** Python's strict `data.decode("utf-8")`: `None` where Python raises UnicodeDecodeError. */
  function Decode(bs: seq<byte>): (r: Option<string>)
    decreases |bs|
  {
    if |bs| == 0 then Some("")
    else
      match DecodeFirst(bs)
      case None => None
      case Some((c, n)) =>
        match Decode(bs[n..])
        case None => None
        case Some(rest) => Some([c] + rest)
  }

  /** Every well-formed sequence starts with the encoding of its first character. */
  lemma DecodeFirstOfEncoding(c: char, rest: seq<byte>)
    ensures DecodeFirst(EncodeChar(c) + rest) == Some((c, |EncodeChar(c)|))
  {
    var cp := c as int;
    var bs := EncodeChar(c) + rest;
    if cp >= 0x80 {
      DivMod64(cp / 64, cp % 64);
      if cp < 0x800 {
        assert 0xC2 <= bs[0] <= 0xDF;
      } else if cp < 0x10000 {
        assert cp / 4096 == cp / 64 / 64;
        assert SecondOfThree(bs[0], bs[1]);
      } else {
        assert cp / 4096 == cp / 64 / 64;
        assert cp / 262144 == cp / 4096 / 64;
        assert SecondOfFour(bs[0], bs[1]);
      }
    }
    var r := DecodeFirst(bs);
    assert r.Some?;
    assert EncodeChar(r.value.0) == EncodeChar(c);
    CharOfEncoding(r.value.0, c);
  }

  /** The encoding of a character determines the character. */
  lemma CharOfEncoding(a: char, b: char)
    requires EncodeChar(a) == EncodeChar(b)
    ensures a == b
  {
    var x, y := a as int, b as int;
    var ea, eb := EncodeChar(a), EncodeChar(b);
    assert |ea| == |eb|;
    DivMod64(x / 64, x % 64);
    DivMod64(y / 64, y % 64);
    if x >= 0x800 {
      assert x / 4096 == x / 64 / 64;
      assert y / 4096 == y / 64 / 64;
      assert x / 64 == y / 64 by {
        DivMod64(x / 64 / 64, x / 64 % 64);
        DivMod64(y / 64 / 64, y / 64 % 64);
        if x >= 0x10000 {
          assert x / 262144 == x / 4096 / 64;
          assert y / 262144 == y / 4096 / 64;
          DivMod64(x / 4096 / 64, x / 4096 % 64);
          DivMod64(y / 4096 / 64, y / 4096 % 64);
        }
      }
    }
  }

  lemma EncodeAppend(a: string, b: string)
    ensures Encode(a + b) == Encode(a) + Encode(b)
    decreases |a|
  {
    if |a| > 0 {
      assert (a + b)[1..] == a[1..] + b;
      EncodeAppend(a[1..], b);
      assert (a + b)[0] == a[0];
      assert Encode(a + b) == EncodeChar(a[0]) + Encode(a[1..] + b);
      assert Encode(a) == EncodeChar(a[0]) + Encode(a[1..]);
      assert EncodeChar(a[0]) + (Encode(a[1..]) + Encode(b)) == (EncodeChar(a[0]) + Encode(a[1..])) + Encode(b);
    } else {
      assert a + b == b;
    }
  }

  /** Decoding an encoding gives the text back. */
  lemma {:induction false} DecodeEncode(s: string)
    ensures Decode(Encode(s)) == Some(s)
    decreases |s|
  {
    if |s| > 0 {
      var head := EncodeChar(s[0]);
      DecodeFirstOfEncoding(s[0], Encode(s[1..]));
      assert (head + Encode(s[1..]))[|head|..] == Encode(s[1..]);
      DecodeEncode(s[1..]);
      assert s == [s[0]] + s[1..];
    }
  }

  lemma EncodeCons(c: char, rest: string)
    ensures Encode([c] + rest) == EncodeChar(c) + Encode(rest)
  {
    assert ([c] + rest)[1..] == rest;
  }

  lemma SplitBytes(bs: seq<byte>, n: nat)
    requires n <= |bs|
    ensures bs[..n] + bs[n..] == bs
  {
  }

  /** A decoded text is its first character followed by the decoding of the bytes after it. */
  lemma DecodeStep(bs: seq<byte>)
    requires |bs| > 0 && Decode(bs).Some?
    ensures DecodeFirst(bs).Some?
    ensures var n := DecodeFirst(bs).value.1;
      && Decode(bs[n..]).Some?
      && Decode(bs).value == [DecodeFirst(bs).value.0] + Decode(bs[n..]).value
  {
  }

  /** Whatever decodes is the encoding of what it decodes to. */
  lemma {:induction false} EncodeDecode(bs: seq<byte>, s: string)
    requires Decode(bs) == Some(s)
    ensures Encode(s) == bs
    decreases |bs|
  {
    if |bs| > 0 {
      DecodeStep(bs);
      var c, n := DecodeFirst(bs).value.0, DecodeFirst(bs).value.1;
      var rest := Decode(bs[n..]).value;
      EncodeDecode(bs[n..], rest);
      EncodeCons(c, rest);
      SplitBytes(bs, n);
    }
  }

  /** Distinct texts have distinct encodings. */
  lemma EncodeInjective(a: string, b: string)
    requires Encode(a) == Encode(b)
    ensures a == b
  {
    DecodeEncode(a);
    DecodeEncode(b);
  }

  /** Each ASCII character is the single byte of its code. */
  lemma {:induction false} EncodeAscii(s: string)
    requires IsAscii(s)
    ensures |Encode(s)| == |s|
    ensures forall i :: 0 <= i < |s| ==> Encode(s)[i] == s[i] as int
    decreases |s|
  {
    if |s| > 0 {
      EncodeAscii(s[1..]);
    }
  }

  /** Bytes below 0x80 always decode. */
  lemma {:induction false} DecodeAsciiBytes(bs: seq<byte>)
    requires forall i :: 0 <= i < |bs| ==> bs[i] < 0x80
    ensures Decode(bs).Some?
    decreases |bs|
  {
    if |bs| > 0 {
      DecodeAsciiBytes(bs[1..]);
    }
  }
}
