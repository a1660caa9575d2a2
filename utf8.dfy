/**
  * UTF-8 as RFC 3629 defines it: Python's `str.encode()` and the strict
  * `bytes.decode()` the Python runtimes call on strings. A Python `str` is a
  * sequence of code points, here a `string` of Dafny characters (Unicode
  * scalar values).
  */
module Utf8 {
  import opened Wire

  /** The one to four bytes of a code point (section 3 of RFC 3629). */
  function EncodeChar(c: char): (r: seq<byte>)
    ensures 1 <= |r| <= 4
    ensures |r| == 1 <==> c as int < 0x80
  {
    var n := c as int;
    if n < 0x80 then [n]
    else if n < 0x800 then [0xC0 + n / 0x40, 0x80 + n % 0x40]
    else if n < 0x1_0000 then [0xE0 + n / 0x1000, 0x80 + (n / 0x40) % 0x40, 0x80 + n % 0x40]
    else [0xF0 + n / 0x4_0000, 0x80 + (n / 0x1000) % 0x40, 0x80 + (n / 0x40) % 0x40, 0x80 + n % 0x40]
  }

  /** `value.encode()`: the code points' bytes, in order. */
  function Encode(s: string): seq<byte>
  {
    if |s| == 0 then [] else EncodeChar(s[0]) + Encode(s[1..])
  }

  /** A continuation byte: 10xxxxxx. */
  predicate Tail(b: int)
  {
    0x80 <= b < 0xC0
  }

  /** The code point at the front of `bs` and the number of bytes it takes,
    * following the byte ranges of section 4 of RFC 3629: overlong forms,
    * surrogates and values above U+10FFFF are refused. */
  function DecodeChar(bs: seq<byte>): (r: Result<(char, nat)>)
    requires |bs| > 0
    ensures r.Ok? ==> 1 <= r.value.1 <= |bs| && r.value.1 <= 4
    ensures r.Err? ==> r.error == InvalidUtf8
  {
    var b0: int := bs[0];
    var b1: int := if |bs| > 1 then bs[1] else 0;
    var b2: int := if |bs| > 2 then bs[2] else 0;
    var b3: int := if |bs| > 3 then bs[3] else 0;
    if b0 < 0x80 then Ok((b0 as char, 1))
    else if 0xC2 <= b0 <= 0xDF then
      if |bs| >= 2 && Tail(b1) then Ok((((b0 - 0xC0) * 0x40 + (b1 - 0x80)) as char, 2))
      else Err(InvalidUtf8)
    else if 0xE0 <= b0 <= 0xEF then
      var lo := if b0 == 0xE0 then 0xA0 else 0x80;
      var hi := if b0 == 0xED then 0x9F else 0xBF;
      if |bs| >= 3 && lo <= b1 <= hi && Tail(b2) then
        Ok((((b0 - 0xE0) * 0x1000 + (b1 - 0x80) * 0x40 + (b2 - 0x80)) as char, 3))
      else Err(InvalidUtf8)
    else if 0xF0 <= b0 <= 0xF4 then
      var lo := if b0 == 0xF0 then 0x90 else 0x80;
      var hi := if b0 == 0xF4 then 0x8F else 0xBF;
      if |bs| >= 4 && lo <= b1 <= hi && Tail(b2) && Tail(b3) then
        Ok((((b0 - 0xF0) * 0x4_0000 + (b1 - 0x80) * 0x1000 + (b2 - 0x80) * 0x40 + (b3 - 0x80)) as char, 4))
      else Err(InvalidUtf8)
    else Err(InvalidUtf8)
  }

  /** `content.decode()`: the code points of well-formed UTF-8, or a
    * `UnicodeDecodeError`. */
  function Decode(bs: seq<byte>): (r: Result<string>)
    ensures r.Err? ==> r.error == InvalidUtf8
    decreases |bs|
  {
    if |bs| == 0 then Ok([])
    else
      var (c, n) :- DecodeChar(bs);
      var rest :- Decode(bs[n..]);
      Ok([c] + rest)
  }

  /** Each code point's bytes decode to it, whatever follows. */
  lemma DecodeEncodeChar(c: char, rest: seq<byte>)
    ensures DecodeChar(EncodeChar(c) + rest) == Ok((c, |EncodeChar(c)|))
  {
    var n := c as int;
    if n < 0x80 {
    } else if n < 0x800 {
      TwoBytes(c, rest);
    } else if n < 0x1_0000 {
      ThreeBytes(c, rest);
    } else {
      FourBytes(c, rest);
    }
  }

  lemma TwoBytes(c: char, rest: seq<byte>)
    requires 0x80 <= c as int < 0x800
    ensures DecodeChar(EncodeChar(c) + rest) == Ok((c, 2))
  {
    var n := c as int;
    assert n == (n / 0x40) * 0x40 + n % 0x40;
  }

  lemma ThreeBytes(c: char, rest: seq<byte>)
    requires 0x800 <= c as int < 0x1_0000
    ensures DecodeChar(EncodeChar(c) + rest) == Ok((c, 3))
  {
    var n := c as int;
    var bs := EncodeChar(c) + rest;
    var q := n / 0x40;
    assert n == q * 0x40 + n % 0x40;
    assert q == (q / 0x40) * 0x40 + q % 0x40;
    DivDiv(n, 0x40, 0x40);
    assert bs[0] - 0xE0 == q / 0x40;
  }

  lemma FourBytes(c: char, rest: seq<byte>)
    requires 0x1_0000 <= c as int
    ensures DecodeChar(EncodeChar(c) + rest) == Ok((c, 4))
  {
    var n := c as int;
    var bs := EncodeChar(c) + rest;
    var q := n / 0x40;
    var q2 := q / 0x40;
    assert n == q * 0x40 + n % 0x40;
    assert q == q2 * 0x40 + q % 0x40;
    assert q2 == (q2 / 0x40) * 0x40 + q2 % 0x40;
    DivDiv(n, 0x40, 0x40);
    DivDiv(n, 0x1000, 0x40);
    assert bs[0] - 0xF0 == q2 / 0x40;
    assert bs[1] - 0x80 == q2 % 0x40;
  }

  /** Decoding undoes encoding. */
  lemma {:induction false} DecodeEncode(s: string)
    ensures Decode(Encode(s)) == Ok(s)
    decreases |s|
  {
    if |s| > 0 {
      var bs := Encode(s);
      DecodeEncodeChar(s[0], Encode(s[1..]));
      assert bs[|EncodeChar(s[0])|..] == Encode(s[1..]);
      DecodeEncode(s[1..]);
      assert s == [s[0]] + s[1..];
    }
  }

  /** A string takes at least one byte per code point, and exactly one per
    * code point just when every code point is ASCII. */
  lemma {:induction false} EncodeLength(s: string)
    ensures |Encode(s)| >= |s|
    ensures |Encode(s)| == |s| <==> forall i :: 0 <= i < |s| ==> s[i] as int < 0x80
    decreases |s|
  {
    if |s| > 0 {
      EncodeLength(s[1..]);
      if forall i :: 0 <= i < |s[1..]| ==> s[1..][i] as int < 0x80 {
        if s[0] as int < 0x80 {
          forall i | 0 <= i < |s| ensures s[i] as int < 0x80 {
            if i > 0 {
              assert s[i] == s[1..][i - 1];
            }
          }
        }
      } else {
        var i :| 0 <= i < |s[1..]| && s[1..][i] as int >= 0x80;
        assert s[i + 1] as int >= 0x80;
      }
    }
  }
}
