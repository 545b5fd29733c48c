/**
 * The pure helpers of assets/script/common/network/http.ts: building the query string
 * (`queryParams`, `withQuery`, with `encodeURIComponent`), turning a finished request
 * into a result (`parseResult`) and the status test `makeRequest` accepts. The request
 * itself, its retries and JSON.parse are outside the model: the parsed body is an input.
 */
module Http {
  import opened Wrappers
  import opened Strings

  // ---------------------------------------------------------------------------
  // encodeURIComponent: letters, digits and - _ . ! ~ * ' ( ) stay, every other
  // character becomes the percent-escapes of its UTF-8 bytes, in upper-case hex.
  // ---------------------------------------------------------------------------

  predicate Unreserved(c: char) {
    ('A' <= c <= 'Z') || ('a' <= c <= 'z') || ('0' <= c <= '9') ||
    c == '-' || c == '_' || c == '.' || c == '!' || c == '~' || c == '*' || c == '\'' || c == '(' || c == ')'
  }

  function HexDigit(d: nat): (c: char)
    requires d < 16
    ensures Unreserved(c)
  {
    if d < 10 then (('0' as int) + d) as char else (('A' as int) + d - 10) as char
  }

  function PercentByte(b: nat): (s: string)
    requires b < 256
    ensures |s| == 3 && s[0] == '%' && Unreserved(s[1]) && Unreserved(s[2])
  {
    ['%', HexDigit(b / 16), HexDigit(b % 16)]
  }

  /** The UTF-8 bytes of code point `cp`, cut into six-bit groups. */
  function Utf8(cp: int): (bs: seq<nat>)
    requires 0 <= cp < 0x11_0000
    ensures 1 <= |bs| <= 4 && forall i :: 0 <= i < |bs| ==> bs[i] < 256
  {
    var q1 := cp / 64;
    var q2 := q1 / 64;
    var q3 := q2 / 64;
    if cp < 0x80 then [cp]
    else if cp < 0x800 then [0xC0 + q1, 0x80 + cp % 64]
    else if cp < 0x1_0000 then [0xE0 + q2, 0x80 + q1 % 64, 0x80 + cp % 64]
    else [0xF0 + q3, 0x80 + q2 % 64, 0x80 + q1 % 64, 0x80 + cp % 64]
  }

  function PercentBytes(bs: seq<nat>): (s: string)
    requires forall i :: 0 <= i < |bs| ==> bs[i] < 256
    ensures |s| == 3 * |bs|
  {
    if bs == [] then [] else PercentByte(bs[0]) + PercentBytes(bs[1..])
  }

  /** The escapes use only '%' and unreserved characters. */
  lemma {:induction false} PercentBytesAlphabet(bs: seq<nat>)
    requires forall i :: 0 <= i < |bs| ==> bs[i] < 256
    ensures forall i :: 0 <= i < |PercentBytes(bs)| ==> Unreserved(PercentBytes(bs)[i]) || PercentBytes(bs)[i] == '%'
  {
    if bs != [] {
      PercentBytesAlphabet(bs[1..]);
      var p, t := PercentByte(bs[0]), PercentBytes(bs[1..]);
      var s := p + t;
      forall i | 0 <= i < |s| ensures Unreserved(s[i]) || s[i] == '%' {
        if i >= 3 {
          assert s[i] == t[i - 3];
        }
      }
      assert PercentBytes(bs) == s;
    }
  }

  /** One character: itself when unreserved, otherwise its escapes. */
  function EncodeChar(c: char): (s: string)
    ensures Unreserved(c) ==> s == [c]
    ensures forall i :: 0 <= i < |s| ==> Unreserved(s[i]) || s[i] == '%'
  {
    if Unreserved(c) then [c]
    else
      PercentBytesAlphabet(Utf8(c as int));
      PercentBytes(Utf8(c as int))
  }

  function EncodeURIComponent(s: string): (r: string)
    ensures forall i :: 0 <= i < |r| ==> Unreserved(r[i]) || r[i] == '%'
  {
    if s == [] then [] else EncodeChar(s[0]) + EncodeURIComponent(s[1..])
  }

  /** A string of unreserved characters is its own encoding. */
  lemma {:induction false} EncodeUnreserved(s: string)
    requires forall i :: 0 <= i < |s| ==> Unreserved(s[i])
    ensures EncodeURIComponent(s) == s
  {
    if s != [] {
      EncodeUnreserved(s[1..]);
    }
  }

  // A reference decoder (decodeURIComponent on well-formed input), the partner of the encoder.

  function HexValue(c: char): (r: Option<nat>)
    ensures r.Some? ==> r.value < 16
  {
    if '0' <= c <= '9' then Some((c as int) - ('0' as int))
    else if 'A' <= c <= 'F' then Some((c as int) - ('A' as int) + 10)
    else if 'a' <= c <= 'f' then Some((c as int) - ('a' as int) + 10)
    else None
  }

  /** The byte of the escape `%XY` at position `i`, if there is one. */
  function ByteAt(s: string, i: nat): (r: Option<nat>)
    ensures r.Some? ==> r.value < 256 && i + 3 <= |s|
  {
    if i + 3 <= |s| && s[i] == '%' && HexValue(s[i + 1]).Some? && HexValue(s[i + 2]).Some? then
      Some(HexValue(s[i + 1]).value * 16 + HexValue(s[i + 2]).value)
    else None
  }

  /** The six payload bits of a UTF-8 continuation byte escaped at position `i`. */
  function Continuation(s: string, i: nat): (r: Option<nat>)
    ensures r.Some? ==> r.value < 64 && i + 3 <= |s|
  {
    var b := ByteAt(s, i);
    if b.Some? && 0x80 <= b.value < 0xC0 then Some(b.value - 0x80) else None
  }

  function Scalar(cp: int, n: nat): Option<(char, nat)>
  {
    if 0 <= cp < 0xD800 || 0xE000 <= cp < 0x11_0000 then Some((cp as char, n)) else None
  }

  /** The character whose escapes start `s`, and how many characters they take. */
  function DecodeUnit(s: string): (r: Option<(char, nat)>)
    ensures r.Some? ==> 3 <= r.value.1 <= |s|
  {
    var b0 := ByteAt(s, 0);
    if b0.None? then None
    else
      var b := b0.value;
      if b < 0x80 then Scalar(b, 3)
      else if 0xC0 <= b < 0xE0 then
        var c1 := Continuation(s, 3);
        if c1.None? then None else Scalar((b - 0xC0) * 64 + c1.value, 6)
      else if 0xE0 <= b < 0xF0 then
        var c1, c2 := Continuation(s, 3), Continuation(s, 6);
        if c1.None? || c2.None? then None
        else Scalar(((b - 0xE0) * 64 + c1.value) * 64 + c2.value, 9)
      else if 0xF0 <= b < 0xF8 then
        var c1, c2, c3 := Continuation(s, 3), Continuation(s, 6), Continuation(s, 9);
        if c1.None? || c2.None? || c3.None? then None
        else Scalar((((b - 0xF0) * 64 + c1.value) * 64 + c2.value) * 64 + c3.value, 12)
      else None
  }

  function DecodeURIComponent(s: string): Option<string>
    decreases |s|
  {
    if s == [] then Some([])
    else if s[0] != '%' then
      var rest := DecodeURIComponent(s[1..]);
      if rest.None? then None else Some([s[0]] + rest.value)
    else
      var u := DecodeUnit(s);
      if u.None? then None
      else
        var rest := DecodeURIComponent(s[u.value.1..]);
        if rest.None? then None else Some([u.value.0] + rest.value)
  }

  lemma HexRoundTrip(d: nat)
    requires d < 16
    ensures HexValue(HexDigit(d)) == Some(d)
  {
  }

  /** The escape of byte `b` reads back as `b`, whatever follows it. */
  lemma ByteAtPercent(b: nat, pre: string, rest: string)
    requires b < 256 && |pre| % 3 == 0
    ensures ByteAt(pre + PercentByte(b) + rest, |pre|) == Some(b)
  {
    var s := pre + PercentByte(b) + rest;
    HexRoundTrip(b / 16);
    HexRoundTrip(b % 16);
    assert s[|pre|] == '%' && s[|pre| + 1] == HexDigit(b / 16) && s[|pre| + 2] == HexDigit(b % 16);
  }

  lemma Unit1(s: string, b: nat)
    requires b < 0x80 && ByteAt(s, 0) == Some(b)
    ensures DecodeUnit(s) == Scalar(b, 3)
  {
  }

  lemma Unit2(s: string, b: nat, x1: nat)
    requires 0xC0 <= b < 0xE0 && ByteAt(s, 0) == Some(b)
    requires x1 < 64 && ByteAt(s, 3) == Some(0x80 + x1)
    ensures DecodeUnit(s) == Scalar((b - 0xC0) * 64 + x1, 6)
  {
    assert Continuation(s, 3) == Some(x1);
  }

  lemma Unit3(s: string, b: nat, x1: nat, x2: nat)
    requires 0xE0 <= b < 0xF0 && ByteAt(s, 0) == Some(b)
    requires x1 < 64 && ByteAt(s, 3) == Some(0x80 + x1)
    requires x2 < 64 && ByteAt(s, 6) == Some(0x80 + x2)
    ensures DecodeUnit(s) == Scalar(((b - 0xE0) * 64 + x1) * 64 + x2, 9)
  {
    assert Continuation(s, 3) == Some(x1) && Continuation(s, 6) == Some(x2);
  }

  lemma Unit4(s: string, b: nat, x1: nat, x2: nat, x3: nat)
    requires 0xF0 <= b < 0xF8 && ByteAt(s, 0) == Some(b)
    requires x1 < 64 && ByteAt(s, 3) == Some(0x80 + x1)
    requires x2 < 64 && ByteAt(s, 6) == Some(0x80 + x2)
    requires x3 < 64 && ByteAt(s, 9) == Some(0x80 + x3)
    ensures DecodeUnit(s) == Scalar((((b - 0xF0) * 64 + x1) * 64 + x2) * 64 + x3, 12)
  {
    assert Continuation(s, 3) == Some(x1) && Continuation(s, 6) == Some(x2) && Continuation(s, 9) == Some(x3);
  }

  /** A code point in base 64, as the UTF-8 encoders cut it up: two, three and four digits. */
  lemma Digits2(cp: int)
    requires cp >= 0
    ensures cp == cp / 64 * 64 + cp % 64
  {
  }

  lemma Digits3(cp: int)
    requires cp >= 0
    ensures cp == (cp / 64 / 64 * 64 + cp / 64 % 64) * 64 + cp % 64
  {
    Digits2(cp);
    Digits2(cp / 64);
  }

  lemma Digits4(cp: int)
    requires cp >= 0
    ensures cp == ((cp / 64 / 64 / 64 * 64 + cp / 64 / 64 % 64) * 64 + cp / 64 % 64) * 64 + cp % 64
  {
    Digits3(cp);
    Digits2(cp / 64 / 64);
  }

  /** Three characters further on, the same escape is read. */
  lemma ByteAtShift(p: string, t: string, i: nat)
    requires |p| == 3
    ensures ByteAt(p + t, 3 + i) == ByteAt(t, i)
  {
    var s := p + t;
    if i + 3 <= |t| {
      assert s[3 + i] == t[i] && s[3 + i + 1] == t[i + 1] && s[3 + i + 2] == t[i + 2];
    }
  }

  /** The `k`th escape of a byte sequence reads back as its `k`th byte. */
  lemma {:induction false} PercentBytesAt(bs: seq<nat>, rest: string, k: nat)
    requires forall i :: 0 <= i < |bs| ==> bs[i] < 256
    requires k < |bs|
    ensures ByteAt(PercentBytes(bs) + rest, 3 * k) == Some(bs[k])
  {
    var t := PercentBytes(bs[1..]) + rest;
    assert PercentBytes(bs) + rest == PercentByte(bs[0]) + t;
    if k == 0 {
      ByteAtPercent(bs[0], [], t);
      assert [] + PercentByte(bs[0]) + t == PercentByte(bs[0]) + t;
    } else {
      PercentBytesAt(bs[1..], rest, k - 1);
      ByteAtShift(PercentByte(bs[0]), t, 3 * (k - 1));
    }
  }

  /** How the UTF-8 encoder cuts a code point of two, three and four bytes. */
  lemma Utf8Two(cp: int)
    requires 0x80 <= cp < 0x800
    ensures var bs := Utf8(cp);
      |bs| == 2 && 0xC0 <= bs[0] < 0xE0 && 0x80 <= bs[1] < 0xC0 &&
      (bs[0] - 0xC0) * 64 + (bs[1] - 0x80) == cp
  {
    var bs := Utf8(cp);
    assert bs == [0xC0 + cp / 64, 0x80 + cp % 64];
    Digits2(cp);
  }

  lemma Utf8Three(cp: int)
    requires 0x800 <= cp < 0x1_0000
    ensures var bs := Utf8(cp);
      |bs| == 3 && 0xE0 <= bs[0] < 0xF0 && 0x80 <= bs[1] < 0xC0 && 0x80 <= bs[2] < 0xC0 &&
      ((bs[0] - 0xE0) * 64 + (bs[1] - 0x80)) * 64 + (bs[2] - 0x80) == cp
  {
    var q1, q2 := cp / 64, cp / 64 / 64;
    var bs := Utf8(cp);
    assert bs == [0xE0 + q2, 0x80 + q1 % 64, 0x80 + cp % 64];
    Digits3(cp);
  }

  lemma Utf8Four(cp: int)
    requires 0x1_0000 <= cp < 0x11_0000
    ensures var bs := Utf8(cp);
      |bs| == 4 && 0xF0 <= bs[0] < 0xF8 && 0x80 <= bs[1] < 0xC0 && 0x80 <= bs[2] < 0xC0 && 0x80 <= bs[3] < 0xC0 &&
      (((bs[0] - 0xF0) * 64 + (bs[1] - 0x80)) * 64 + (bs[2] - 0x80)) * 64 + (bs[3] - 0x80) == cp
  {
    var q1, q2, q3 := cp / 64, cp / 64 / 64, cp / 64 / 64 / 64;
    var bs := Utf8(cp);
    assert bs == [0xF0 + q3, 0x80 + q2 % 64, 0x80 + q1 % 64, 0x80 + cp % 64];
    Digits4(cp);
  }

  /** The escapes of a lead byte and its continuation bytes decode as one unit. */
  lemma Escapes2(bs: seq<nat>, rest: string)
    requires |bs| == 2 && 0xC0 <= bs[0] < 0xE0 && 0x80 <= bs[1] < 0xC0
    ensures DecodeUnit(PercentBytes(bs) + rest) == Scalar((bs[0] - 0xC0) * 64 + (bs[1] - 0x80), 6)
  {
    PercentBytesAt(bs, rest, 0);
    PercentBytesAt(bs, rest, 1);
    Unit2(PercentBytes(bs) + rest, bs[0], bs[1] - 0x80);
  }

  lemma Escapes3(bs: seq<nat>, rest: string)
    requires |bs| == 3 && 0xE0 <= bs[0] < 0xF0 && 0x80 <= bs[1] < 0xC0 && 0x80 <= bs[2] < 0xC0
    ensures DecodeUnit(PercentBytes(bs) + rest) ==
      Scalar(((bs[0] - 0xE0) * 64 + (bs[1] - 0x80)) * 64 + (bs[2] - 0x80), 9)
  {
    PercentBytesAt(bs, rest, 0);
    PercentBytesAt(bs, rest, 1);
    PercentBytesAt(bs, rest, 2);
    Unit3(PercentBytes(bs) + rest, bs[0], bs[1] - 0x80, bs[2] - 0x80);
  }

  lemma Escapes4(bs: seq<nat>, rest: string)
    requires |bs| == 4 && 0xF0 <= bs[0] < 0xF8 && 0x80 <= bs[1] < 0xC0 && 0x80 <= bs[2] < 0xC0 && 0x80 <= bs[3] < 0xC0
    ensures DecodeUnit(PercentBytes(bs) + rest) ==
      Scalar((((bs[0] - 0xF0) * 64 + (bs[1] - 0x80)) * 64 + (bs[2] - 0x80)) * 64 + (bs[3] - 0x80), 12)
  {
    PercentBytesAt(bs, rest, 0);
    PercentBytesAt(bs, rest, 1);
    PercentBytesAt(bs, rest, 2);
    PercentBytesAt(bs, rest, 3);
    Unit4(PercentBytes(bs) + rest, bs[0], bs[1] - 0x80, bs[2] - 0x80, bs[3] - 0x80);
  }

  lemma EncodeChar1(c: char, rest: string)
    requires !Unreserved(c) && c as int < 0x80
    ensures DecodeUnit(EncodeChar(c) + rest) == Some((c, 3))
  {
    var cp := c as int;
    var bs := Utf8(cp);
    assert bs == [cp];
    PercentBytesAt(bs, rest, 0);
    Unit1(EncodeChar(c) + rest, cp);
  }

  lemma EncodeChar2(c: char, rest: string)
    requires !Unreserved(c) && 0x80 <= c as int < 0x800
    ensures DecodeUnit(EncodeChar(c) + rest) == Some((c, 6))
  {
    Utf8Two(c as int);
    Escapes2(Utf8(c as int), rest);
    ScalarOf(c, 6);
  }

  lemma EncodeChar3(c: char, rest: string)
    requires !Unreserved(c) && 0x800 <= c as int < 0x1_0000
    ensures DecodeUnit(EncodeChar(c) + rest) == Some((c, 9))
  {
    Utf8Three(c as int);
    Escapes3(Utf8(c as int), rest);
    ScalarOf(c, 9);
  }

  lemma EncodeChar4(c: char, rest: string)
    requires !Unreserved(c) && 0x1_0000 <= c as int
    ensures DecodeUnit(EncodeChar(c) + rest) == Some((c, 12))
  {
    Utf8Four(c as int);
    Escapes4(Utf8(c as int), rest);
    ScalarOf(c, 12);
  }

  lemma ScalarOf(c: char, n: nat)
    ensures Scalar(c as int, n) == Some((c, n))
  {
  }

  /** The escapes of a character that is not unreserved decode to that character. */
  lemma DecodeUnitEncodeChar(c: char, rest: string)
    requires !Unreserved(c)
    ensures DecodeUnit(EncodeChar(c) + rest) == Some((c, |EncodeChar(c)|))
  {
    var cp := c as int;
    if cp < 0x80 {
      EncodeChar1(c, rest);
    } else if cp < 0x800 {
      EncodeChar2(c, rest);
    } else if cp < 0x1_0000 {
      EncodeChar3(c, rest);
    } else {
      EncodeChar4(c, rest);
    }
  }

  /** Decoding an encoded character in front of more text. */
  lemma DecodeEncodeChar(c: char, rest: string)
    ensures DecodeURIComponent(EncodeChar(c) + rest) ==
      (var d := DecodeURIComponent(rest); if d.None? then None else Some([c] + d.value))
  {
    var s := EncodeChar(c) + rest;
    if Unreserved(c) {
      assert s[0] == c && s[1..] == rest;
    } else {
      DecodeUnitEncodeChar(c, rest);
      assert s[0] == '%';
      assert s[|EncodeChar(c)|..] == rest;
    }
  }

  /** decodeURIComponent(encodeURIComponent(s)) == s. */
  lemma {:induction false} DecodeEncode(s: string)
    ensures DecodeURIComponent(EncodeURIComponent(s)) == Some(s)
  {
    if s != [] {
      DecodeEncode(s[1..]);
      DecodeEncodeChar(s[0], EncodeURIComponent(s[1..]));
      assert [s[0]] + s[1..] == s;
    }
  }

  /** The encoding holds none of the characters a query string is built from. */
  lemma EncodedHasNoDelimiters(s: string)
    ensures '&' !in EncodeURIComponent(s) && '=' !in EncodeURIComponent(s) && '?' !in EncodeURIComponent(s)
  {
    var e := EncodeURIComponent(s);
    assert forall i :: 0 <= i < |e| ==> e[i] != '&' && e[i] != '=' && e[i] != '?';
  }

  // ---------------------------------------------------------------------------
  // queryParams and withQuery
  // ---------------------------------------------------------------------------

  /** The parameters in the order `Object.keys` lists them, each value already in its string form. */
  type Params = seq<(string, string)>

  function Pair(p: (string, string)): string
  {
    EncodeURIComponent(p.0) + "=" + EncodeURIComponent(p.1)
  }

  function Pairs(ps: Params): (r: seq<string>)
    ensures |r| == |ps| && forall i :: 0 <= i < |ps| ==> r[i] == Pair(ps[i])
  {
    if ps == [] then [] else [Pair(ps[0])] + Pairs(ps[1..])
  }

  /** `queryParams`: "" for null or undefined, otherwise the `&`-join of the encoded pairs. */
  function QueryParams(params: Option<Params>): string
  {
    match params
    case None => ""
    case Some(ps) => Join(Pairs(ps), '&')
  }

  /** A query string read back: split at `&`, then each piece at `=`, then decoded. */
  function ParseQuery(q: string): Option<Params>
  {
    if q == [] then Some([]) else ParsePairs(Split(q, '&'))
  }

  function ParsePairs(pieces: seq<string>): Option<Params>
  {
    if pieces == [] then Some([])
    else
      var kv := Split(pieces[0], '=');
      var rest := ParsePairs(pieces[1..]);
      if |kv| != 2 || rest.None? then None
      else
        var k, v := DecodeURIComponent(kv[0]), DecodeURIComponent(kv[1]);
        if k.None? || v.None? then None else Some([(k.value, v.value)] + rest.value)
  }

  lemma PairParses(p: (string, string))
    ensures Split(Pair(p), '=') == [EncodeURIComponent(p.0), EncodeURIComponent(p.1)]
    ensures '&' !in Pair(p) && '?' !in Pair(p) && |Pair(p)| > 0
  {
    var ek, ev := EncodeURIComponent(p.0), EncodeURIComponent(p.1);
    EncodedHasNoDelimiters(p.0);
    EncodedHasNoDelimiters(p.1);
    assert Join([ek, ev], '=') == Pair(p) by {
      assert [ek, ev][1..] == [ev];
    }
    SplitJoin([ek, ev], '=');
    assert Pair(p)[|ek|] == '=';
  }

  lemma {:induction false} ParsePairsRoundTrip(ps: Params)
    ensures ParsePairs(Pairs(ps)) == Some(ps)
  {
    if ps != [] {
      ParsePairsRoundTrip(ps[1..]);
      ParsePairsStep(Pairs(ps), ps[0]);
      assert Pairs(ps)[1..] == Pairs(ps[1..]);
      assert [ps[0]] + ps[1..] == ps;
    }
  }

  lemma ParsePairsStep(pieces: seq<string>, p: (string, string))
    requires |pieces| > 0 && pieces[0] == Pair(p)
    ensures ParsePairs(pieces) ==
      (var rest := ParsePairs(pieces[1..]); if rest.None? then None else Some([p] + rest.value))
  {
    PairParses(p);
    DecodeEncode(p.0);
    DecodeEncode(p.1);
  }

  /** Reading a built query string back gives the parameters, in order. */
  lemma QueryParamsRoundTrip(ps: Params)
    ensures QueryParams(None) == ""
    ensures ParseQuery(QueryParams(Some(ps))) == Some(ps)
    ensures '?' !in QueryParams(Some(ps))
    ensures ps != [] <==> QueryParams(Some(ps)) != ""
  {
    var pieces := Pairs(ps);
    forall i | 0 <= i < |pieces| ensures '&' !in pieces[i] && '?' !in pieces[i] {
      PairParses(ps[i]);
    }
    ParsePairsRoundTrip(ps);
    if ps != [] {
      SplitJoin(pieces, '&');
      PairParses(ps[0]);
      JoinNoSep(pieces, '?');
      JoinStartsWith(pieces, '&');
    }
  }

  lemma {:induction false} JoinNoSep(parts: seq<string>, c: char)
    requires c != '&' && forall i :: 0 <= i < |parts| ==> c !in parts[i]
    ensures c !in Join(parts, '&')
  {
    if |parts| > 1 {
      JoinNoSep(parts[1..], c);
      assert Join(parts, '&') == parts[0] + ['&'] + Join(parts[1..], '&');
    }
  }

  lemma JoinStartsWith(parts: seq<string>, sep: char)
    requires |parts| > 0
    ensures |Join(parts, sep)| >= |parts[0]|
  {
  }

  /** `withQuery`: the url as it is when the query string is empty, otherwise joined with `?` or `&`. */
  function WithQuery(url: string, params: Option<Params>): (r: string)
    ensures QueryParams(params) == "" ==> r == url
    ensures QueryParams(params) != "" ==>
      |r| == |url| + 1 + |QueryParams(params)| && r[..|url|] == url &&
      r[|url|] == (if '?' in url then '&' else '?') && r[|url| + 1..] == QueryParams(params)
  {
    var queryString := QueryParams(params);
    if |queryString| > 0 then url + (if '?' !in url then "?" else "&") + queryString else url
  }

  /** For a url without `?`, the text after the `?` of the result reads back as the parameters. */
  lemma WithQueryRoundTrip(url: string, ps: Params)
    requires '?' !in url && ps != []
    ensures Split(WithQuery(url, Some(ps)), '?') == [url, QueryParams(Some(ps))]
    ensures ParseQuery(Split(WithQuery(url, Some(ps)), '?')[1]) == Some(ps)
  {
    QueryParamsRoundTrip(ps);
    SplitCons(url, QueryParams(Some(ps)), '?');
    SplitNoSep(QueryParams(Some(ps)), '?');
  }

  // ---------------------------------------------------------------------------
  // parseResult and the success test of makeRequest
  // ---------------------------------------------------------------------------

  datatype Json =
    | JNull
    | JBool(b: bool)
    | JNumber(n: real)
    | JString(s: string)
    | JArray(items: seq<Json>)
    | JObject(fields: seq<(string, Json)>)

  /**
   * What reading the body as a server result gives: `Threw` when JSON.parse (or the
   * field access on what it returns) throws; otherwise the `errcode`, `errmsg` and `data`
   * fields, `None` where a field is null or undefined.
   */
  datatype ParsedBody =
    | Threw
    | ServerInfo(errcode: Option<int>, errmsg: Option<string>, data: Option<Json>)

  /** The result's data: the raw response text, or the server's `data` field (`None`: undefined). */
  datatype Data = Raw(text: string) | Payload(value: Option<Json>)

  datatype HttpResult = HttpResult(ok: bool, status: int, statusText: string, data: Data)

  /**
   * `parseResult`: ok for a 2xx status; only then is the body read, and a positive
   * `errcode` turns the result into a failure carrying the server's code and message. A
   * body that cannot be read leaves the result as first built.
   */
  method ParseResult(status: int, statusText: string, responseText: string, body: ParsedBody)
    returns (ret: HttpResult)
    ensures ret.ok ==> 200 <= status < 300
    ensures !(200 <= status < 300) || body.Threw? ==>
      ret == HttpResult(200 <= status < 300, status, statusText, Raw(responseText))
    ensures 200 <= status < 300 && body.ServerInfo? ==>
      ret.data == Payload(body.data) &&
      (ret.ok <==> !(body.errcode.Some? && body.errcode.value > 0)) &&
      (ret.ok ==> ret.status == status && ret.statusText == statusText) &&
      (!ret.ok ==> (ret.status == body.errcode.value &&
        ret.statusText == (if body.errmsg.Some? then body.errmsg.value else statusText)))
  {
    ret := HttpResult(200 <= status < 300, status, statusText, Raw(responseText));
    if ret.ok {
      match body
      case Threw =>
      case ServerInfo(errcode, errmsg, data) =>
        if errcode.Some? && errcode.value > 0 {
          ret := ret.(ok := false);
          ret := ret.(status := errcode.value);
          ret := ret.(statusText := if errmsg.Some? then errmsg.value else ret.statusText);
        }
        ret := ret.(data := Payload(data));
    }
  }

  /** The status test `makeRequest` applies before handing a result back. */
  predicate Accepted(status: int) {
    (200 <= status <= 399) || status >= 20000
  }

  /** An ok result is always accepted; a failed one is accepted exactly when its server code is from 200 to 399 or from 20000 up. */
  lemma ParsedAccepted(r: HttpResult, status: int, statusText: string, responseText: string, body: ParsedBody)
    requires 200 <= status < 300 && body.ServerInfo? && body.errcode.Some?
    requires r.ok <==> body.errcode.value <= 0
    requires !r.ok ==> r.status == body.errcode.value
    requires r.ok ==> r.status == status
    ensures r.ok ==> Accepted(r.status)
    ensures !r.ok ==> (Accepted(r.status) <==> body.errcode.value >= 20000 || 200 <= body.errcode.value <= 399)
  {
  }
}
