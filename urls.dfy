/** The parts of Python's urllib.parse that the login flow relies on:
    quote (used with safe=""), quote_plus and urlencode to build URLs, and
    parse_qsl / parse_qs with unquote to read the callback query string. */
module Urls {
  import opened Values
  import opened Utf8

  predicate IsAscii(c: char) {
    c as int < 0x80
  }

  /** The bytes quote() never escapes: ASCII letters, digits and "_.-~",
      the unreserved characters of section 2.3 of RFC 3986. */
  predicate Unreserved(b: byte) {
    || 'A' as int <= b <= 'Z' as int
    || 'a' as int <= b <= 'z' as int
    || '0' as int <= b <= '9' as int
    || b == '_' as int || b == '.' as int || b == '-' as int || b == '~' as int
  }

  predicate UnreservedChar(c: char) {
    IsAscii(c) && Unreserved(c as int)
  }

  /** Upper-case hex digit, as quote() writes it. */
  function HexDigit(d: nat): char
    requires d < 16
  {
    if d < 10 then ('0' as int + d) as char else ('A' as int + d - 10) as char
  }

  /** The hex digits unquote accepts, in either case. */
  predicate IsHex(c: char) {
    '0' <= c <= '9' || 'A' <= c <= 'F' || 'a' <= c <= 'f'
  }

  function HexValue(c: char): nat
    requires IsHex(c)
  {
    if '0' <= c <= '9' then c as int - '0' as int
    else if 'A' <= c <= 'F' then c as int - 'A' as int + 10
    else c as int - 'a' as int + 10
  }

  /** How quote() writes one byte: kept when unreserved, "+" for a space in
      quote_plus, otherwise "%XX". */
  function QuoteByte(b: byte, plus: bool): string {
    if Unreserved(b) then [b as char]
    else if plus && b == 0x20 then "+"
    else ['%', HexDigit(b / 16), HexDigit(b % 16)]
  }

  /** quote_from_bytes with safe="" (plus = false), or the same with the
      space made safe and then replaced by "+" (plus = true), which is what
      quote_plus does. */
  function QuoteBytes(bs: seq<byte>, plus: bool): string {
    if bs == [] then "" else QuoteByte(bs[0], plus) + QuoteBytes(bs[1..], plus)
  }

  /** `urllib.parse.quote(s, safe="")` */
  function Quote(s: string): string {
    QuoteBytes(Encode(s), false)
  }

  /** `urllib.parse.quote_plus(s)`, whose safe set is empty too. */
  function QuotePlus(s: string): string {
    QuoteBytes(Encode(s), true)
  }

  /** `sep.join(parts)` */
  function Join(parts: seq<string>, sep: char): string {
    if |parts| == 0 then ""
    else if |parts| == 1 then parts[0]
    else parts[0] + [sep] + Join(parts[1..], sep)
  }

  /** The "key=value" fields urlencode writes, in the order of the pairs. */
  function EncodeFields(params: seq<(string, string)>): seq<string> {
    if params == [] then []
    else [QuotePlus(params[0].0) + "=" + QuotePlus(params[0].1)] + EncodeFields(params[1..])
  }

  /** `urllib.parse.urlencode(params)` for str keys and values; Python keeps
      a dict's insertion order, so the pairs are a sequence. */
  function UrlEncode(params: seq<(string, string)>): string {
    Join(EncodeFields(params), '&')
  }

  /** Position of the first `c` in `s`, or |s| when there is none. */
  function FirstIndex(s: string, c: char): (i: nat)
    ensures i <= |s|
    ensures c !in s[..i]
    ensures i < |s| ==> s[i] == c
  {
    if s == [] || s[0] == c then 0 else 1 + FirstIndex(s[1..], c)
  }

  /** `s.split(sep)` */
  function Split(s: string, sep: char): (parts: seq<string>)
    ensures |parts| >= 1
    decreases |s|
  {
    var i := FirstIndex(s, sep);
    if i == |s| then [s] else [s[..i]] + Split(s[i + 1..], sep)
  }

  /** `s.replace("+", " ")` */
  function PlusToSpace(s: string): string {
    seq(|s|, i requires 0 <= i < |s| => if s[i] == '+' then ' ' else s[i])
  }

  /** `urllib.parse.unquote_to_bytes` on an ASCII str: "%" followed by two
      hex digits becomes that byte; every other character, a "%" that starts
      no escape included, stands for itself. */
  function UnquoteToBytes(s: string): seq<byte>
    requires forall i :: 0 <= i < |s| ==> IsAscii(s[i])
  {
    if s == [] then []
    else if s[0] == '%' && |s| >= 3 && IsHex(s[1]) && IsHex(s[2]) then
      [HexValue(s[1]) * 16 + HexValue(s[2])] + UnquoteToBytes(s[3..])
    else
      assert IsAscii(s[0]);
      [s[0] as int] + UnquoteToBytes(s[1..])
  }

  /** Length of the longest ASCII prefix of `s`. */
  function AsciiRun(s: string): (n: nat)
    ensures n <= |s|
    ensures forall i :: 0 <= i < n ==> IsAscii(s[i])
    ensures n < |s| ==> !IsAscii(s[n])
  {
    if s == [] || !IsAscii(s[0]) then 0 else 1 + AsciiRun(s[1..])
  }

  /** The loop of unquote over the string split into ASCII runs: each run
      is unquoted to bytes and decoded as UTF-8 with replacement; other
      characters are kept. */
  function UnquoteRuns(s: string): string
    decreases |s|
  {
    if s == [] then ""
    else if !IsAscii(s[0]) then [s[0]] + UnquoteRuns(s[1..])
    else
      var n := AsciiRun(s);
      Decode(UnquoteToBytes(s[..n])) + UnquoteRuns(s[n..])
  }

  /** `urllib.parse.unquote(s)`: a string without "%" is returned as it is. */
  function Unquote(s: string): string {
    if '%' !in s then s else UnquoteRuns(s)
  }

  /** One field of parse_qsl (keep_blank_values=False): an empty field, a
      field without "=", and a field whose value is empty are dropped;
      otherwise the field is split at its first "=" and both halves get
      "+" turned into a space and are unquoted. */
  function ParseField(f: string): seq<(string, string)> {
    var i := FirstIndex(f, '=');
    if i == |f| || i + 1 == |f| then []
    else [(Unquote(PlusToSpace(f[..i])), Unquote(PlusToSpace(f[i + 1..])))]
  }

  function ParseFields(fs: seq<string>): seq<(string, string)> {
    if fs == [] then [] else ParseField(fs[0]) + ParseFields(fs[1..])
  }

  /** `urllib.parse.parse_qsl(qs)`: fields are separated by "&" only. */
  function ParseQsl(qs: string): seq<(string, string)> {
    ParseFields(Split(qs, '&'))
  }

  /** `parse_qs(qs).get(key, [None])[0]`: parse_qs collects the values of
      each name in order, so this is the first value given for `key`. */
  function FirstValue(pairs: seq<(string, string)>, key: string): (v: Option<string>)
    ensures v.None? <==> forall i :: 0 <= i < |pairs| ==> pairs[i].0 != key
    ensures v.Some? ==> exists i :: (0 <= i < |pairs| && pairs[i] == (key, v.value)
      && forall j :: 0 <= j < i ==> pairs[j].0 != key)
  {
    if pairs == [] then None
    else if pairs[0].0 == key then Some(pairs[0].1)
    else
      var v := FirstValue(pairs[1..], key);
      assert forall j :: 1 <= j < |pairs| ==> pairs[j] == pairs[1..][j - 1];
      v
  }

  /** The first pair named `key` gives the value. */
  lemma {:induction false} FirstValueAt(pairs: seq<(string, string)>, key: string, i: nat)
    requires i < |pairs| && pairs[i].0 == key
    requires forall j :: 0 <= j < i ==> pairs[j].0 != key
    ensures FirstValue(pairs, key) == Some(pairs[i].1)
    decreases i
  {
    if i > 0 {
      FirstValueAt(pairs[1..], key, i - 1);
    }
  }

  /** The pairs whose value is not empty, in order. */
  function NonBlank(pairs: seq<(string, string)>): seq<(string, string)> {
    if pairs == [] then []
    else if pairs[0].1 == "" then NonBlank(pairs[1..])
    else [pairs[0]] + NonBlank(pairs[1..])
  }

  /** Dropping nothing when no value is empty. */
  lemma {:induction false} NonBlankAll(pairs: seq<(string, string)>)
    ensures (forall i :: 0 <= i < |pairs| ==> pairs[i].1 != "") ==> NonBlank(pairs) == pairs
  {
    if pairs != [] && pairs[0].1 != "" {
      NonBlankAll(pairs[1..]);
      if forall i :: 0 <= i < |pairs| ==> pairs[i].1 != "" {
        assert forall i :: 0 <= i < |pairs[1..]| ==> pairs[1..][i].1 == pairs[i + 1].1;
        assert pairs == [pairs[0]] + pairs[1..];
      }
    }
  }

  /** A key whose first value is not empty keeps that value once the blank
      pairs are dropped. */
  lemma {:induction false} FirstValueNonBlank(pairs: seq<(string, string)>, key: string)
    requires FirstValue(pairs, key).Some? && FirstValue(pairs, key).value != ""
    ensures FirstValue(NonBlank(pairs), key) == FirstValue(pairs, key)
  {
    if pairs[0].0 != key {
      FirstValueNonBlank(pairs[1..], key);
      if pairs[0].1 != "" {
        assert ([pairs[0]] + NonBlank(pairs[1..]))[1..] == NonBlank(pairs[1..]);
      }
    }
  }

  // ---------------------------------------------------------------------
  // Properties of the encoders

  /** What quote() can write: unreserved ASCII characters, "%" (whose hex
      digits are unreserved too) and, in quote_plus only, "+". */
  lemma {:induction false} QuoteAlphabet(bs: seq<byte>, plus: bool)
    ensures forall i :: 0 <= i < |QuoteBytes(bs, plus)| ==>
      var c := QuoteBytes(bs, plus)[i];
      UnreservedChar(c) || c == '%' || (plus && c == '+')
  {
    if bs != [] {
      QuoteAlphabet(bs[1..], plus);
    }
  }

  /** Nothing but the empty byte string quotes to the empty string. */
  lemma QuoteNonEmpty(bs: seq<byte>, plus: bool)
    requires bs != []
    ensures QuoteBytes(bs, plus) != ""
  {
    assert |QuoteByte(bs[0], plus)| >= 1;
  }

  /** quote(s, safe="") leaves no separator of a URL unescaped: in
      particular "/", ":", "?", "#", "&", "=" and "+" never appear in it. */
  lemma QuoteEscapesDelimiters(s: string)
    ensures forall c :: c in "/:?#&=+ " ==> c !in Quote(s)
  {
    QuoteAlphabet(Encode(s), false);
  }

  /** quote_plus writes neither "&" nor "=", so a urlencoded field has
      exactly one "=" and no "&". */
  lemma QuotePlusNoSeparators(s: string)
    ensures '&' !in QuotePlus(s) && '=' !in QuotePlus(s)
  {
    QuoteAlphabet(Encode(s), true);
  }

  /** A character that is neither the separator nor in any part is not in
      the joined string. */
  lemma {:induction false} JoinAvoids(parts: seq<string>, sep: char, c: char)
    requires c != sep && forall i :: 0 <= i < |parts| ==> c !in parts[i]
    ensures c !in Join(parts, sep)
    decreases |parts|
  {
    if |parts| > 1 {
      JoinAvoids(parts[1..], sep, c);
    }
  }

  /** urlencode never writes an apostrophe, so its output cannot end the
      single-quoted JavaScript string it is placed in. */
  lemma UrlEncodeNoApostrophe(params: seq<(string, string)>)
    ensures '\'' !in UrlEncode(params)
  {
    var fields := EncodeFields(params);
    forall i | 0 <= i < |fields|
      ensures '\'' !in fields[i]
    {
      FieldsNoApostrophe(params, i);
    }
    JoinAvoids(fields, '&', '\'');
  }

  lemma {:induction false} FieldsNoApostrophe(params: seq<(string, string)>, i: nat)
    requires i < |EncodeFields(params)|
    ensures '\'' !in EncodeFields(params)[i]
    decreases i
  {
    if i == 0 {
      QuoteAlphabet(Encode(params[0].0), true);
      QuoteAlphabet(Encode(params[0].1), true);
    } else {
      FieldsNoApostrophe(params[1..], i - 1);
    }
  }

  lemma PlusToSpaceConcat(a: string, b: string)
    ensures PlusToSpace(a + b) == PlusToSpace(a) + PlusToSpace(b)
  {
  }

  lemma HexRoundTrip(b: byte)
    ensures IsHex(HexDigit(b / 16)) && IsHex(HexDigit(b % 16))
    ensures HexValue(HexDigit(b / 16)) * 16 + HexValue(HexDigit(b % 16)) == b
  {
  }

  /** One quoted byte, with "+" turned back into a space, is ASCII and
      unquotes to that byte, whatever ASCII text follows it. */
  lemma UnquoteQuoteByte(b: byte, plus: bool, tail: string)
    requires forall i :: 0 <= i < |tail| ==> IsAscii(tail[i])
    ensures forall i :: 0 <= i < |PlusToSpace(QuoteByte(b, plus))| ==> IsAscii(PlusToSpace(QuoteByte(b, plus))[i])
    ensures UnquoteToBytes(PlusToSpace(QuoteByte(b, plus)) + tail) == [b] + UnquoteToBytes(tail)
  {
    if Unreserved(b) {
      UnquoteKept(b, plus, tail);
    } else if plus && b == 0x20 {
      UnquotePlus(tail);
    } else {
      UnquoteEscaped(b, plus, tail);
    }
  }

  lemma UnquoteKept(b: byte, plus: bool, tail: string)
    requires Unreserved(b)
    requires forall i :: 0 <= i < |tail| ==> IsAscii(tail[i])
    ensures PlusToSpace(QuoteByte(b, plus)) == [b as char] && IsAscii(b as char)
    ensures UnquoteToBytes([b as char] + tail) == [b] + UnquoteToBytes(tail)
  {
    assert PlusToSpace(QuoteByte(b, plus)) == [b as char];
    UnquoteLiteral(b as char, tail);
  }

  lemma UnquotePlus(tail: string)
    requires forall i :: 0 <= i < |tail| ==> IsAscii(tail[i])
    ensures PlusToSpace(QuoteByte(0x20, true)) == " "
    ensures UnquoteToBytes(" " + tail) == [0x20] + UnquoteToBytes(tail)
  {
    assert PlusToSpace("+") == " ";
    UnquoteLiteral(' ', tail);
  }

  lemma UnquoteEscaped(b: byte, plus: bool, tail: string)
    requires !Unreserved(b) && !(plus && b == 0x20)
    requires forall i :: 0 <= i < |tail| ==> IsAscii(tail[i])
    ensures var e := PlusToSpace(QuoteByte(b, plus));
      |e| == 3 && IsAscii(e[0]) && IsAscii(e[1]) && IsAscii(e[2])
    ensures UnquoteToBytes(PlusToSpace(QuoteByte(b, plus)) + tail) == [b] + UnquoteToBytes(tail)
  {
    var e := QuoteByte(b, plus);
    assert e == ['%', HexDigit(b / 16), HexDigit(b % 16)];
    HexRoundTrip(b);
    assert '+' !in e;
    PlusToSpaceNoPlus(e);
    UnquoteEscape(e, b, tail);
  }

  lemma PlusToSpaceNoPlus(s: string)
    requires '+' !in s
    ensures PlusToSpace(s) == s
  {
  }

  /** An ASCII character other than "%" stands for itself. */
  lemma UnquoteLiteral(c: char, tail: string)
    requires IsAscii(c) && c != '%'
    requires forall i :: 0 <= i < |tail| ==> IsAscii(tail[i])
    ensures UnquoteToBytes([c] + tail) == [c as int] + UnquoteToBytes(tail)
  {
    assert ([c] + tail)[1..] == tail;
  }

  /** "%" and two hex digits stand for the byte they spell. */
  lemma UnquoteEscape(e: string, v: byte, tail: string)
    requires |e| == 3 && e[0] == '%' && IsHex(e[1]) && IsHex(e[2])
    requires HexValue(e[1]) * 16 + HexValue(e[2]) == v
    requires forall i :: 0 <= i < |tail| ==> IsAscii(tail[i])
    ensures forall i :: 0 <= i < |e + tail| ==> IsAscii((e + tail)[i])
    ensures UnquoteToBytes(e + tail) == [v] + UnquoteToBytes(tail)
  {
    var t := e + tail;
    assert t[3..] == tail;
    forall i | 0 <= i < |t|
      ensures IsAscii(t[i])
    {
      if i >= 3 {
        assert t[i] == tail[i - 3];
      }
    }
  }

  /** Turning "+" back into a space and unquoting to bytes gives back the
      bytes that were quoted. */
  lemma {:induction false} UnquoteQuoteBytes(bs: seq<byte>, plus: bool)
    ensures forall i :: 0 <= i < |PlusToSpace(QuoteBytes(bs, plus))| ==>
      IsAscii(PlusToSpace(QuoteBytes(bs, plus))[i])
    ensures UnquoteToBytes(PlusToSpace(QuoteBytes(bs, plus))) == bs
  {
    if bs != [] {
      var head := QuoteByte(bs[0], plus);
      var tail := QuoteBytes(bs[1..], plus);
      UnquoteQuoteBytes(bs[1..], plus);
      PlusToSpaceConcat(head, tail);
      UnquoteQuoteByte(bs[0], plus, PlusToSpace(tail));
      assert PlusToSpace(QuoteBytes(bs, plus)) == PlusToSpace(head) + PlusToSpace(tail);
    }
  }

  /** A run without "%" unquotes to the bytes of its own characters. */
  lemma {:induction false} UnquoteToBytesPlain(s: string)
    requires forall i :: 0 <= i < |s| ==> IsAscii(s[i])
    requires '%' !in s
    ensures |UnquoteToBytes(s)| == |s|
    ensures forall i :: 0 <= i < |s| ==> UnquoteToBytes(s)[i] == s[i] as int
  {
    if s != [] {
      assert '%' !in s[1..];
      UnquoteToBytesPlain(s[1..]);
    }
  }

  /** Without "%" the run-by-run loop changes nothing, so the short cut at
      the top of unquote agrees with the loop. */
  lemma {:induction false} UnquoteRunsPlain(s: string)
    requires '%' !in s
    ensures UnquoteRuns(s) == s
    decreases |s|
  {
    if s != [] {
      if !IsAscii(s[0]) {
        assert '%' !in s[1..];
        UnquoteRunsPlain(s[1..]);
      } else {
        var n := AsciiRun(s);
        var run := s[..n];
        assert '%' !in run && '%' !in s[n..];
        UnquoteToBytesPlain(run);
        var bytes := UnquoteToBytes(run);
        DecodeAscii(bytes);
        assert Decode(bytes) == run;
        UnquoteRunsPlain(s[n..]);
        assert s == run + s[n..];
      }
    }
  }

  /** An ASCII string is a single run. */
  lemma UnquoteAscii(s: string)
    requires forall i :: 0 <= i < |s| ==> IsAscii(s[i])
    ensures Unquote(s) == Decode(UnquoteToBytes(s))
  {
    if '%' !in s {
      UnquoteRunsPlain(s);
    }
    if s != [] {
      var n := AsciiRun(s);
      assert n == |s|;
      assert s[..n] == s;
      assert UnquoteRuns(s) == Decode(UnquoteToBytes(s)) + UnquoteRuns(s[n..]);
    }
  }

  /** Round trip of both encoders: the reader of a query string (which turns
      "+" into a space and then unquotes) recovers exactly the str that
      quote or quote_plus was given. */
  lemma UnquoteQuote(s: string, plus: bool)
    ensures Unquote(PlusToSpace(QuoteBytes(Encode(s), plus))) == s
  {
    UnquoteQuoteBytes(Encode(s), plus);
    UnquoteAscii(PlusToSpace(QuoteBytes(Encode(s), plus)));
    DecodeEncode(s);
  }

  // ---------------------------------------------------------------------
  // Properties of split and join

  lemma {:induction false} FirstIndexAt(p: string, sep: char, rest: string)
    requires sep !in p
    ensures FirstIndex(p + [sep] + rest, sep) == |p|
  {
    if p != [] {
      assert (p + [sep] + rest)[1..] == p[1..] + [sep] + rest;
      FirstIndexAt(p[1..], sep, rest);
    }
  }

  /** Splitting a joined list gives the list back when no part contains the
      separator. */
  lemma {:induction false} SplitJoin(parts: seq<string>, sep: char)
    requires |parts| >= 1
    requires forall i :: 0 <= i < |parts| ==> sep !in parts[i]
    ensures Split(Join(parts, sep), sep) == parts
  {
    if |parts| == 1 {
      assert FirstIndex(parts[0], sep) == |parts[0]|;
    } else {
      var p := parts[0];
      var rest := Join(parts[1..], sep);
      FirstIndexAt(p, sep, rest);
      var s := p + [sep] + rest;
      assert s[..|p|] == p && s[|p| + 1..] == rest;
      SplitJoin(parts[1..], sep);
    }
  }

  // ---------------------------------------------------------------------
  // urlencode against parse_qsl

  /** A field with an "=" after a key that has none splits there; it is
      kept when the value is non-empty. */
  lemma ParseFieldAt(key: string, value: string)
    requires '=' !in key && value != ""
    ensures ParseField(key + "=" + value) == [(Unquote(PlusToSpace(key)), Unquote(PlusToSpace(value)))]
  {
    var f := key + "=" + value;
    FirstIndexAt(key, '=', value);
    assert f == key + ['='] + value;
    assert f[..|key|] == key && f[|key| + 1..] == value;
  }

  /** A field whose value is empty is dropped. */
  lemma ParseFieldBlank(key: string)
    requires '=' !in key
    ensures ParseField(key + "=") == []
  {
    FirstIndexAt(key, '=', "");
  }

  lemma QuotePlusField(k: string, v: string)
    ensures '&' !in QuotePlus(k) + "=" + QuotePlus(v)
    ensures ParseField(QuotePlus(k) + "=" + QuotePlus(v)) == NonBlank([(k, v)])
  {
    QuotePlusNoSeparators(k);
    QuotePlusNoSeparators(v);
    if v == "" {
      assert QuotePlus(v) == "";
      assert QuotePlus(k) + "=" + QuotePlus(v) == QuotePlus(k) + "=";
      ParseFieldBlank(QuotePlus(k));
    } else {
      assert Encode(v) != [];
      QuoteNonEmpty(Encode(v), true);
      ParseFieldAt(QuotePlus(k), QuotePlus(v));
      UnquoteQuote(k, true);
      UnquoteQuote(v, true);
    }
  }

  lemma {:induction false} ParseEncodeFields(params: seq<(string, string)>)
    ensures |EncodeFields(params)| == |params|
    ensures forall i :: 0 <= i < |params| ==> '&' !in EncodeFields(params)[i]
    ensures ParseFields(EncodeFields(params)) == NonBlank(params)
  {
    if params != [] {
      var (k, v) := params[0];
      var fs := EncodeFields(params);
      QuotePlusField(k, v);
      ParseEncodeFields(params[1..]);
      assert fs == [QuotePlus(k) + "=" + QuotePlus(v)] + EncodeFields(params[1..]);
      assert fs[1..] == EncodeFields(params[1..]);
      assert ParseFields(fs) == NonBlank([(k, v)]) + ParseFields(fs[1..]);
      assert NonBlank(params) == NonBlank([(k, v)]) + NonBlank(params[1..]);
    }
  }

  /** parse_qsl reads back the pairs urlencode wrote, in order, except those
      with an empty value, which parse_qsl drops; so when no value is empty
      it reads back exactly the pairs written. */
  lemma ParseQslUrlEncode(params: seq<(string, string)>)
    ensures ParseQsl(UrlEncode(params)) == NonBlank(params)
    ensures (forall i :: 0 <= i < |params| ==> params[i].1 != "") ==>
      ParseQsl(UrlEncode(params)) == params
  {
    ParseEncodeFields(params);
    if params != [] {
      SplitJoin(EncodeFields(params), '&');
    } else {
      assert Split("", '&') == [""];
    }
    NonBlankAll(params);
  }
}
