/** UTF-8 as Python's str.encode("utf-8") and bytes.decode("utf-8",
    "replace") use it: quote() encodes a str before escaping its bytes,
    and unquote() decodes the unescaped bytes back, replacing every
    maximal ill-formed subpart with U+FFFD. */
module Utf8 {

  type byte = b: int | 0 <= b < 256

  const Replacement: char := '\U{FFFD}'

  /** The UTF-8 encoding of one scalar value (Table 3-6 of the Unicode
      Standard). */
  function EncodeChar(c: char): (bs: seq<byte>)
    ensures 1 <= |bs| <= 4
    ensures bs[0] < 0x80 <==> |bs| == 1
  {
    var cp := c as int;
    if cp < 0x80 then
      [cp as byte]
    else if cp < 0x800 then
      [(0xC0 + cp / 0x40) as byte, (0x80 + cp % 0x40) as byte]
    else if cp < 0x10000 then
      [(0xE0 + cp / 0x1000) as byte, (0x80 + cp / 0x40 % 0x40) as byte,
       (0x80 + cp % 0x40) as byte]
    else
      [(0xF0 + cp / 0x40000) as byte, (0x80 + cp / 0x1000 % 0x40) as byte,
       (0x80 + cp / 0x40 % 0x40) as byte, (0x80 + cp % 0x40) as byte]
  }

  /** `s.encode("utf-8")` */
  function Encode(s: string): seq<byte> {
    if s == [] then [] else EncodeChar(s[0]) + Encode(s[1..])
  }

  /** Length of the sequence a lead byte announces; 0 for a byte that
      cannot start a well-formed sequence (80..C1 and F5..FF). */
  function SequenceLength(b: byte): nat {
    if b < 0x80 then 1
    else if 0xC2 <= b <= 0xDF then 2
    else if 0xE0 <= b <= 0xEF then 3
    else if 0xF0 <= b <= 0xF4 then 4
    else 0
  }

  /** May `b` stand at position `i` (1, 2 or 3) of a sequence led by
      `lead`? The second byte's range depends on the lead byte; that is
      what excludes overlong forms, surrogates and values past U+10FFFF. */
  predicate ContinuationOk(lead: byte, i: nat, b: byte) {
    if i == 1 && lead == 0xE0 then 0xA0 <= b <= 0xBF
    else if i == 1 && lead == 0xED then 0x80 <= b <= 0x9F
    else if i == 1 && lead == 0xF0 then 0x90 <= b <= 0xBF
    else if i == 1 && lead == 0xF4 then 0x80 <= b <= 0x8F
    else 0x80 <= b <= 0xBF
  }

  /** How many bytes of `bs`, counting the lead byte and at most `n`, form
      the start of a well-formed sequence, scanning from position `i`. */
  function Matched(bs: seq<byte>, n: nat, i: nat): (m: nat)
    requires 1 <= i <= n && i <= |bs|
    ensures i <= m <= n && m <= |bs|
    ensures forall j :: i <= j < m ==> ContinuationOk(bs[0], j, bs[j])
    ensures m < n && m < |bs| ==> !ContinuationOk(bs[0], m, bs[m])
    decreases n - i
  {
    if i < n && i < |bs| && ContinuationOk(bs[0], i, bs[i]) then Matched(bs, n, i + 1) else i
  }

  /** The scalar value of a well-formed sequence of length n. */
  function ScalarValue(bs: seq<byte>, n: nat): (c: char)
    requires 1 <= n <= 4 && n <= |bs| && SequenceLength(bs[0]) == n
    requires forall j :: 1 <= j < n ==> ContinuationOk(bs[0], j, bs[j])
  {
    if n == 1 then
      bs[0] as char
    else if n == 2 then
      ((bs[0] as int - 0xC0) * 0x40 + (bs[1] as int - 0x80)) as char
    else if n == 3 then
      assert ContinuationOk(bs[0], 1, bs[1]) && ContinuationOk(bs[0], 2, bs[2]);
      ((bs[0] as int - 0xE0) * 0x1000 + (bs[1] as int - 0x80) * 0x40 + (bs[2] as int - 0x80)) as char
    else
      assert ContinuationOk(bs[0], 1, bs[1]) && ContinuationOk(bs[0], 2, bs[2]);
      assert ContinuationOk(bs[0], 3, bs[3]);
      ((bs[0] as int - 0xF0) * 0x40000 + (bs[1] as int - 0x80) * 0x1000 + (bs[2] as int - 0x80) * 0x40
        + (bs[3] as int - 0x80)) as char
  }

  /** `bs.decode("utf-8", "replace")` */
  function Decode(bs: seq<byte>): string
    decreases |bs|
  {
    if bs == [] then []
    else
      var n := SequenceLength(bs[0]);
      if n == 0 then [Replacement] + Decode(bs[1..])
      else
        var m := Matched(bs, n, 1);
        if m == n then [ScalarValue(bs, n)] + Decode(bs[n..])
        else [Replacement] + Decode(bs[m..])
  }

  /** Decoding undoes encoding one scalar value at a time. */
  lemma DecodeEncodeChar(c: char, rest: seq<byte>)
    ensures Decode(EncodeChar(c) + rest) == [c] + Decode(rest)
  {
    var cp := c as int;
    if cp < 0x80 {
      DecodeEncodeOne(c, rest);
    } else if cp < 0x800 {
      DecodeEncodeTwo(c, rest);
    } else if cp < 0x10000 {
      DecodeEncodeThree(c, rest);
    } else {
      DecodeEncodeFour(c, rest);
    }
  }

  lemma DecodeEncodeOne(c: char, rest: seq<byte>)
    requires c as int < 0x80
    ensures Decode(EncodeChar(c) + rest) == [c] + Decode(rest)
  {
    var bs := EncodeChar(c) + rest;
    assert bs[1..] == rest;
    assert SequenceLength(bs[0]) == 1;
  }

  lemma DecodeEncodeTwo(c: char, rest: seq<byte>)
    requires 0x80 <= c as int < 0x800
    ensures Decode(EncodeChar(c) + rest) == [c] + Decode(rest)
  {
    var cp := c as int;
    var bs := EncodeChar(c) + rest;
    assert bs[2..] == rest;
    assert SequenceLength(bs[0]) == 2;
    assert Matched(bs, 2, 1) == 2;
    assert (cp / 0x40) * 0x40 + cp % 0x40 == cp;
  }

  lemma DecodeEncodeThree(c: char, rest: seq<byte>)
    requires 0x800 <= c as int < 0x10000
    ensures Decode(EncodeChar(c) + rest) == [c] + Decode(rest)
  {
    var cp := c as int;
    var bs := EncodeChar(c) + rest;
    assert bs[3..] == rest;
    var b1 := cp / 0x40 % 0x40;
    assert cp / 0x1000 == cp / 0x40 / 0x40;
    assert cp == (cp / 0x1000) * 0x1000 + b1 * 0x40 + cp % 0x40;
    assert SequenceLength(bs[0]) == 3;
    assert ContinuationOk(bs[0], 1, bs[1]);
    assert Matched(bs, 3, 1) == 3;
  }

  lemma DecodeEncodeFour(c: char, rest: seq<byte>)
    requires 0x10000 <= c as int
    ensures Decode(EncodeChar(c) + rest) == [c] + Decode(rest)
  {
    var cp := c as int;
    var bs := EncodeChar(c) + rest;
    assert bs[4..] == rest;
    var b1 := cp / 0x1000 % 0x40;
    var b2 := cp / 0x40 % 0x40;
    assert cp / 0x1000 == cp / 0x40 / 0x40;
    assert cp / 0x40000 == cp / 0x1000 / 0x40;
    assert cp == (cp / 0x40000) * 0x40000 + b1 * 0x1000 + b2 * 0x40 + cp % 0x40;
    assert SequenceLength(bs[0]) == 4;
    assert ContinuationOk(bs[0], 1, bs[1]);
    assert Matched(bs, 4, 1) == 4;
  }

  /** Round trip: `s.encode("utf-8").decode("utf-8", "replace") == s`. */
  lemma {:induction false} DecodeEncode(s: string)
    ensures Decode(Encode(s)) == s
  {
    if s != [] {
      DecodeEncodeChar(s[0], Encode(s[1..]));
      DecodeEncode(s[1..]);
    }
  }

  /** Bytes below 0x80 decode one character each. */
  lemma {:induction false} DecodeAscii(bs: seq<byte>)
    requires forall i :: 0 <= i < |bs| ==> bs[i] < 0x80
    ensures |Decode(bs)| == |bs|
    ensures forall i :: 0 <= i < |bs| ==> Decode(bs)[i] as int == bs[i]
  {
    if bs != [] {
      DecodeAscii(bs[1..]);
    }
  }
}
