/** String escaping of the JSON library (kmod/parson.c): the printer's escapes, the
    parser's quote skipping and unescaping, as section 7 of RFC 8259 describes them.

    Text is a sequence of bytes; a cursor is the text that remains.  Reading past the
    end gives the terminating zero byte. */
module JsonText {
  import opened Types

  const NUL: byte := 0
  const SPACE: byte := 32
  const QUOTE: byte := 34
  const SLASH: byte := 47
  const BACKSLASH: byte := 92
  const U: byte := 117

  type Text = seq<byte>

  function Head(s: Text): byte { if s == [] then NUL else s[0] }

  predicate IsSpace(c: byte) { c == SPACE || 9 <= c <= 13 }

  function SkipWs(s: Text): (r: Text)
    ensures |r| <= |s|
  {
    if s != [] && IsSpace(s[0]) then SkipWs(s[1..]) else s
  }

  // ------------------------------------------------------------------ printing

  function HexDigit(d: nat): byte
    requires d < 16
  {
    if d < 10 then 48 + d else 87 + d
  }

  /** The switch of json_serialize_string for one byte. */
  function Escape(c: byte, slashes: bool): (e: Text)
    ensures e != []
  {
    if c == QUOTE || c == BACKSLASH then [BACKSLASH, c]
    else if c == 8 then [BACKSLASH, 98]
    else if c == 12 then [BACKSLASH, 102]
    else if c == 10 then [BACKSLASH, 110]
    else if c == 13 then [BACKSLASH, 114]
    else if c == 9 then [BACKSLASH, 116]
    else if c < 32 then [BACKSLASH, U, 48, 48, HexDigit(c / 16), HexDigit(c % 16)]
    else if c == SLASH && slashes then [BACKSLASH, SLASH]
    else [c]
  }

  function EscapeAll(s: Text, slashes: bool): Text
  {
    if s == [] then [] else Escape(s[0], slashes) + EscapeAll(s[1..], slashes)
  }

  function SerString(s: Text, slashes: bool): Text { [QUOTE] + EscapeAll(s, slashes) + [QUOTE] }

  /** json_serialize_string's loop, which appends to a buffer and counts what it wrote. */
  method SerializeString(s: Text, slashes: bool) returns (buf: Text, written: nat)
    ensures buf == SerString(s, slashes) && written == |buf|
  {
    buf, written := [QUOTE], 1;
    for i := 0 to |s|
      invariant buf + EscapeAll(s[i..], slashes) == [QUOTE] + EscapeAll(s, slashes)
      invariant written == |buf|
    {
      var e := Escape(s[i], slashes);
      assert EscapeAll(s[i..], slashes) == e + EscapeAll(s[i + 1..], slashes) by { assert s[i..][1..] == s[i + 1..]; }
      assert buf + (e + EscapeAll(s[i + 1..], slashes)) == (buf + e) + EscapeAll(s[i + 1..], slashes);
      buf, written := buf + e, written + |e|;
    }
    assert EscapeAll(s[|s|..], slashes) == [];
    buf, written := buf + [QUOTE], written + 1;
  }

  // ------------------------------------------------------------------ skipping quotes

  /** The loop of skip_quotes: the text after the closing quote. */
  function SkipBody(s: Text): (r: Option<Text>)
    ensures r.Some? ==> |r.value| < |s| && s[|s| - |r.value|..] == r.value
  {
    if Head(s) == QUOTE then Some(s[1..])
    else if Head(s) == NUL then None
    else if s[0] == BACKSLASH then
      if Head(s[1..]) == NUL then None
      else
        var r := SkipBody(s[2..]);
        assert r.Some? ==> s[|s| - |r.value|..] == s[2..][|s| - 2 - |r.value|..];
        r
    else
      var r := SkipBody(s[1..]);
      assert r.Some? ==> s[|s| - |r.value|..] == s[1..][|s| - 1 - |r.value|..];
      r
  }

  method SkipQuotes(s: Text) returns (r: Option<Text>)
    ensures r == if Head(s) == QUOTE then SkipBody(s[1..]) else None
  {
    if Head(s) != QUOTE { return None; }
    var p := 1;
    while p < |s| && s[p] != QUOTE
      invariant 1 <= p <= |s| && SkipBody(s[1..]) == SkipBody(s[p..])
    {
      if s[p] == NUL { return None; }
      if s[p] == BACKSLASH {
        if p + 1 >= |s| || s[p + 1] == NUL {
          assert Head(s[p..][1..]) == NUL;
          return None;
        }
        assert s[p..][2..] == s[p + 2..];
        p := p + 1;
      } else {
        assert s[p..][1..] == s[p + 1..];
      }
      p := p + 1;
    }
    if p >= |s| { return None; }
    assert s[p..][1..] == s[p + 1..];
    return Some(s[p + 1..]);
  }

  // ------------------------------------------------------------------ unescaping

  function HexValue(c: byte): Option<nat>
  {
    if 48 <= c <= 57 then Some(c - 48)
    else if 97 <= c <= 102 then Some(c - 87)
    else if 65 <= c <= 70 then Some(c - 55)
    else None
  }

  /** parse_utf16_hex: four hexadecimal digits. */
  function Hex4(s: Text): (r: Option<nat>)
    ensures r.Some? ==> |s| >= 4 && r.value < 0x1_0000
  {
    if |s| < 4 then None
    else
      var a, b, c, d := HexValue(s[0]), HexValue(s[1]), HexValue(s[2]), HexValue(s[3]);
      if a.None? || b.None? || c.None? || d.None? then None
      else Some(a.value * 4096 + b.value * 256 + c.value * 16 + d.value)
  }

  /** The UTF-8 bytes that parse_utf16 stores for a code point. */
  function Utf8(cp: nat): Text
    requires cp < 0x11_0000
  {
    if cp < 0x80 then [cp]
    else if cp < 0x800 then [0xC0 + cp / 0x40, 0x80 + cp % 0x40]
    else if cp < 0x1_0000 then [0xE0 + cp / 0x1000, 0x80 + cp / 0x40 % 0x40, 0x80 + cp % 0x40]
    else [0xF0 + cp / 0x4_0000, 0x80 + cp / 0x1000 % 0x40, 0x80 + cp / 0x40 % 0x40, 0x80 + cp % 0x40]
  }

  /** parse_utf16, from after the `u`: the bytes to store and the text that follows. */
  function ParseUtf16(s: Text): (r: Option<(Text, Text)>)
    ensures r.Some? ==> |r.value.1| < |s|
  {
    var lead := Hex4(s);
    if lead.None? then None
    else if lead.value < 0xD800 || lead.value > 0xDFFF then Some((Utf8(lead.value), s[4..]))
    else if lead.value > 0xDBFF || |s| < 6 || s[4] != BACKSLASH || s[5] != U then None
    else
      var trail := Hex4(s[6..]);
      if trail.None? || trail.value < 0xDC00 || trail.value > 0xDFFF then None
      else Some((Utf8((lead.value - 0xD800) * 0x400 + (trail.value - 0xDC00) + 0x1_0000), s[10..]))
  }

  function Simple(c: byte): Option<byte>
  {
    if c == QUOTE || c == BACKSLASH || c == SLASH then Some(c)
    else if c == 98 then Some(8)
    else if c == 102 then Some(12)
    else if c == 110 then Some(10)
    else if c == 114 then Some(13)
    else if c == 116 then Some(9)
    else None
  }

  /** process_string on the text between the quotes. */
  function Process(s: Text): Option<Text>
  {
    if Head(s) == NUL then Some([])
    else if s[0] == BACKSLASH then
      if Head(s[1..]) == U then
        match ParseUtf16(s[2..])
        case None => None
        case Some((bytes, rest)) => Prefixed(bytes, Process(rest))
      else if Simple(Head(s[1..])).Some? then Prefixed([Simple(Head(s[1..])).value], Process(s[2..]))
      else None
    else if s[0] < 32 then None
    else Prefixed([s[0]], Process(s[1..]))
  }

  function Prefixed(p: Text, r: Option<Text>): Option<Text> { if r.Some? then Some(p + r.value) else None }

  lemma PrefixedTwice(a: Text, b: Text, r: Option<Text>)
    ensures Prefixed(a, Prefixed(b, r)) == Prefixed(a + b, r)
  {
    if r.Some? { assert a + (b + r.value) == a + b + r.value; }
  }

  method ProcessString(input: Text) returns (r: Option<Text>)
    ensures r == Process(input)
  {
    var output: Text := [];
    var s := input;
    assert Process(s).Some? ==> output + Process(s).value == Process(s).value;
    while Head(s) != NUL
      invariant Prefixed(output, Process(s)) == Process(input)
      decreases |s|
    {
      if s[0] == BACKSLASH {
        if Head(s[1..]) == U {
          var u := ParseUtf16(s[2..]);
          if u.None? { return None; }
          PrefixedTwice(output, u.value.0, Process(u.value.1));
          output, s := output + u.value.0, u.value.1;
        } else {
          var c := Simple(Head(s[1..]));
          if c.None? { return None; }
          PrefixedTwice(output, [c.value], Process(s[2..]));
          output, s := output + [c.value], s[2..];
        }
      } else {
        if s[0] < 32 { return None; }
        PrefixedTwice(output, [s[0]], Process(s[1..]));
        output, s := output + [s[0]], s[1..];
      }
    }
    assert output + [] == output;
    return Some(output);
  }

  /** get_quoted_string: the unescaped contents and the text after the closing quote. */
  function GetQuoted(s: Text): (r: Option<(Text, Text)>)
    ensures r.Some? ==> |r.value.1| < |s|
  {
    if Head(s) != QUOTE then None
    else
      match SkipBody(s[1..])
      case None => None
      case Some(rest) =>
        match Process(s[1..|s| - |rest| - 1])
        case None => None
        case Some(out) => Some((out, rest))
  }

  // ------------------------------------------------------------------ round trip

  lemma {:induction false} SkipEscape(c: byte, slashes: bool, rest: Text)
    ensures SkipBody(Escape(c, slashes) + rest) == SkipBody(rest)
  {
    var e := Escape(c, slashes);
    if |e| == 1 {
      SkipPlain(c, rest);
    } else if |e| == 2 {
      SkipPair(e[1], rest);
      assert e == [BACKSLASH, e[1]];
    } else {
      SkipSix(e[2..], rest);
      assert e == [BACKSLASH, U] + e[2..];
    }
  }

  lemma {:induction false} SkipPair(x: byte, rest: Text)
    requires x != NUL
    ensures SkipBody([BACKSLASH, x] + rest) == SkipBody(rest)
  {
    assert ([BACKSLASH, x] + rest)[2..] == rest;
  }

  lemma {:induction false} SkipSix(digits: Text, rest: Text)
    requires |digits| == 4
    requires forall i :: 0 <= i < 4 ==> digits[i] != QUOTE && digits[i] != NUL && digits[i] != BACKSLASH
    ensures SkipBody([BACKSLASH, U] + digits + rest) == SkipBody(rest)
  {
    assert [BACKSLASH, U] + digits + rest == [BACKSLASH, U] + (digits + rest);
    SkipPair(U, digits + rest);
    SkipFour(digits, rest);
  }

  lemma {:induction false} SkipFour(e: Text, rest: Text)
    requires |e| == 4 && forall i :: 0 <= i < 4 ==> e[i] != QUOTE && e[i] != NUL && e[i] != BACKSLASH
    ensures SkipBody(e + rest) == SkipBody(rest)
  {
    assert e + rest == [e[0]] + ([e[1]] + ([e[2]] + ([e[3]] + rest)));
    SkipPlain(e[0], [e[1]] + ([e[2]] + ([e[3]] + rest)));
    SkipPlain(e[1], [e[2]] + ([e[3]] + rest));
    SkipPlain(e[2], [e[3]] + rest);
    SkipPlain(e[3], rest);
  }

  lemma {:induction false} SkipPlain(c: byte, rest: Text)
    requires c != QUOTE && c != NUL && c != BACKSLASH
    ensures SkipBody([c] + rest) == SkipBody(rest)
  {
    assert ([c] + rest)[1..] == rest;
  }

  lemma {:induction false} SkipEscaped(s: Text, slashes: bool, rest: Text)
    ensures SkipBody(EscapeAll(s, slashes) + [QUOTE] + rest) == Some(rest)
  {
    if s == [] {
      assert EscapeAll(s, slashes) + [QUOTE] + rest == [QUOTE] + rest;
    } else {
      var e, more := Escape(s[0], slashes), EscapeAll(s[1..], slashes) + [QUOTE] + rest;
      assert EscapeAll(s, slashes) + [QUOTE] + rest == e + more;
      SkipEscape(s[0], slashes, more);
      SkipEscaped(s[1..], slashes, rest);
    }
  }

  lemma HexInverse(d: nat)
    requires d < 16
    ensures HexValue(HexDigit(d)) == Some(d)
  {
  }

  lemma {:induction false} ProcessEscape(c: byte, slashes: bool, rest: Text)
    ensures Process(Escape(c, slashes) + rest) == Prefixed([c], Process(rest))
  {
    var e := Escape(c, slashes);
    var s := e + rest;
    if |e| == 1 {
      assert s[1..] == rest;
    } else if |e| == 2 {
      assert s[1..] == [e[1]] + rest && s[2..] == rest;
    } else {
      assert s[1..] == [e[1], e[2], e[3], e[4], e[5]] + rest;
      var u := s[2..];
      assert u == [e[2], e[3], e[4], e[5]] + rest && u[4..] == rest;
      assert Hex4(u) == Some(c) by { HexDigits(c, u); }
    }
  }

  lemma HexDigits(c: byte, u: Text)
    requires c < 32 && |u| >= 4 && u[..4] == [HexDigit(0), HexDigit(0), HexDigit(c / 16), HexDigit(c % 16)]
    ensures Hex4(u) == Some(c)
  {
    HexInverse(0);
    HexInverse(c / 16);
    HexInverse(c % 16);
  }

  /** Unescaping undoes escaping for every byte string, with either slash setting. */
  lemma {:induction false} ProcessEscaped(s: Text, slashes: bool)
    ensures Process(EscapeAll(s, slashes)) == Some(s)
  {
    if s != [] {
      ProcessEscaped(s[1..], slashes);
      ProcessNext(s[0], slashes, EscapeAll(s[1..], slashes), s[1..]);
      assert s == [s[0]] + s[1..];
    }
  }

  lemma {:induction false} ProcessNext(c: byte, slashes: bool, rest: Text, s: Text)
    requires Process(rest) == Some(s)
    ensures Process(Escape(c, slashes) + rest) == Some([c] + s)
  {
    ProcessEscape(c, slashes, rest);
  }

  lemma QuotedRoundTrip(s: Text, slashes: bool, rest: Text)
    ensures GetQuoted(SerString(s, slashes) + rest) == Some((s, rest))
  {
    var e := EscapeAll(s, slashes);
    var t := SerString(s, slashes) + rest;
    assert t[1..] == e + [QUOTE] + rest;
    SkipEscaped(s, slashes, rest);
    assert t[1..|t| - |rest| - 1] == e;
    ProcessEscaped(s, slashes);
  }
}
