/**
 * `encodeURIComponent` as ECMAScript 2015 defines it (section 18.2.6.5,
 * through the abstract operation Encode of section 18.2.6.1.1, with
 * `uriUnreserved` as the set of characters left alone), and a decoder in the
 * manner of `decodeURIComponent` (section 18.2.6.3) that serves as its
 * inverse.
 */
module UriComponent {
  import opened Wrappers
  import opened JsStrings

  /** The `URIError` that `encodeURIComponent` throws on a lone surrogate. */
  datatype UriError = UriError

  type Byte = b: int | 0 <= b < 0x100

  const PERCENT: CodeUnit := 0x25

  /** `uriUnreserved`: the ASCII letters and digits and `- _ . ! ~ * ' ( )`. */
  predicate Unreserved(c: CodeUnit)
  {
    ('A' as int <= c as int <= 'Z' as int)
    || ('a' as int <= c as int <= 'z' as int)
    || ('0' as int <= c as int <= '9' as int)
    || c as int in {'-' as int, '_' as int, '.' as int, '!' as int, '~' as int,
                    '*' as int, '\'' as int, '(' as int, ')' as int}
  }

  predicate AllUnreserved(s: JsString)
  {
    forall i :: 0 <= i < |s| ==> Unreserved(s[i])
  }

  /** A Unicode scalar value: a code point that is not a surrogate. */
  predicate IsScalar(cp: int)
  {
    0 <= cp < 0x11_0000 && !(0xD800 <= cp < 0xE000)
  }

  /** The UTF-8 encoding of a scalar value. */
  function Utf8(cp: int): (bs: seq<Byte>)
    requires IsScalar(cp)
    ensures 1 <= |bs| <= 4
  {
    if cp < 0x80 then [cp]
    else if cp < 0x800 then [0xC0 + cp / 0x40, 0x80 + cp % 0x40]
    else if cp < 0x1_0000 then [0xE0 + cp / 0x1000, 0x80 + cp / 0x40 % 0x40, 0x80 + cp % 0x40]
    else [0xF0 + cp / 0x4_0000, 0x80 + cp / 0x1000 % 0x40, 0x80 + cp / 0x40 % 0x40, 0x80 + cp % 0x40]
  }

  /** The scalar value a surrogate pair stands for (UTF16Decode). */
  function PairValue(hi: CodeUnit, lo: CodeUnit): (cp: int)
    requires IsHighSurrogate(hi) && IsLowSurrogate(lo)
    ensures IsScalar(cp) && cp >= 0x1_0000
  {
    (hi as int - 0xD800) * 0x400 + (lo as int - 0xDC00) + 0x1_0000
  }

  /** An upper-case hexadecimal digit, `0`-`9` then `A`-`F`. */
  function HexDigit(d: int): (c: CodeUnit)
    requires 0 <= d < 16
  {
    if d < 10 then (0x30 + d) as CodeUnit else (0x41 + d - 10) as CodeUnit
  }

  /** Every byte as `%XY`. */
  function Escape(bs: seq<Byte>): (t: JsString)
    ensures |t| == 3 * |bs|
  {
    if bs == [] then []
    else [PERCENT, HexDigit(bs[0] / 16), HexDigit(bs[0] % 16)] + Escape(bs[1..])
  }

  /**
   * `encodeURIComponent(s)`: unreserved code units are copied, every other
   * scalar value becomes the `%XY` escapes of its UTF-8 bytes, and a lone
   * surrogate throws.
   */
  function Encode(s: JsString): Result<JsString, UriError>
    decreases |s|
  {
    if s == [] then Ok([])
    else
      var c := s[0];
      if Unreserved(c) then
        var rest :- Encode(s[1..]);
        Ok([c] + rest)
      else if IsLowSurrogate(c) then Err(UriError)
      else if !IsHighSurrogate(c) then
        var rest :- Encode(s[1..]);
        Ok(Escape(Utf8(c as int)) + rest)
      else if |s| < 2 || !IsLowSurrogate(s[1]) then Err(UriError)
      else
        var rest :- Encode(s[2..]);
        Ok(Escape(Utf8(PairValue(c, s[1]))) + rest)
  }

  // ---------------------------------------------------------------------
  // The decoder

  function HexValue(c: CodeUnit): (r: Option<int>)
    ensures r.Some? ==> 0 <= r.value < 16
  {
    if 0x30 <= c <= 0x39 then Some(c as int - 0x30)
    else if 0x41 <= c <= 0x46 then Some(c as int - 0x41 + 10)
    else if 0x61 <= c <= 0x66 then Some(c as int - 0x61 + 10)
    else None
  }

  /** The `n` bytes written as `%XY` triples at the front of `t`. */
  function ReadBytes(t: JsString, n: nat): (r: Option<seq<Byte>>)
    ensures r.Some? ==> |r.value| == n && 3 * n <= |t|
    decreases n
  {
    if n == 0 then Some([])
    else if |t| < 3 || t[0] != PERCENT then None
    else
      var hi :- HexValue(t[1]);
      var lo :- HexValue(t[2]);
      var rest :- ReadBytes(t[3..], n - 1);
      Some([hi * 16 + lo] + rest)
  }

  /** How many bytes a UTF-8 sequence starting with `b` has; 0 when `b` cannot start one. */
  function SequenceLength(b: Byte): nat
  {
    if b < 0x80 then 1
    else if 0xC0 <= b < 0xE0 then 2
    else if 0xE0 <= b < 0xF0 then 3
    else if 0xF0 <= b < 0xF8 then 4
    else 0
  }

  /** The payload bits of a UTF-8 sequence of one to four bytes. */
  function Utf8Value(bs: seq<Byte>): int
    requires 1 <= |bs| <= 4
  {
    if |bs| == 1 then bs[0]
    else if |bs| == 2 then (bs[0] as int - 0xC0) * 0x40 + (bs[1] as int - 0x80)
    else if |bs| == 3 then
      (bs[0] as int - 0xE0) * 0x1000 + (bs[1] as int - 0x80) * 0x40 + (bs[2] as int - 0x80)
    else
      (bs[0] as int - 0xF0) * 0x4_0000 + (bs[1] as int - 0x80) * 0x1000
      + (bs[2] as int - 0x80) * 0x40 + (bs[3] as int - 0x80)
  }

  /** The UTF-16 encoding of a scalar value (UTF16Encoding). */
  function Utf16(cp: int): JsString
    requires IsScalar(cp)
  {
    if cp < 0x1_0000 then [cp as CodeUnit]
    else [(0xD800 + (cp - 0x1_0000) / 0x400) as CodeUnit, (0xDC00 + (cp - 0x1_0000) % 0x400) as CodeUnit]
  }

  /**
   * Percent-decoding: `%XY` escapes (either case of hex digit) are read as
   * bytes, which must form a well-formed UTF-8 sequence; anything else is
   * copied.  `None` plays the part of `decodeURIComponent`'s `URIError`.
   */
  function Decode(t: JsString): Option<JsString>
    decreases |t|
  {
    if t == [] then Some([])
    else if t[0] != PERCENT then
      var rest :- Decode(t[1..]);
      Some([t[0]] + rest)
    else
      var lead :- ReadBytes(t, 1);
      var n := SequenceLength(lead[0]);
      if n == 0 then None
      else
        var bs :- ReadBytes(t, n);
        var cp := Utf8Value(bs);
        if !(IsScalar(cp) && Utf8(cp) == bs) then None
        else
          var rest :- Decode(t[3 * n..]);
          Some(Utf16(cp) + rest)
  }

  // ---------------------------------------------------------------------
  // The shape of the output

  predicate IsUpperHex(c: CodeUnit)
  {
    (0x30 <= c <= 0x39) || (0x41 <= c <= 0x46)
  }

  /** Unreserved code units and `%XY` escapes with upper-case hex digits, and nothing else. */
  predicate Escaped(t: JsString)
    decreases |t|
  {
    if t == [] then true
    else if Unreserved(t[0]) then Escaped(t[1..])
    else |t| >= 3 && t[0] == PERCENT && IsUpperHex(t[1]) && IsUpperHex(t[2]) && Escaped(t[3..])
  }

  lemma {:induction false} EscapedAppend(a: JsString, b: JsString)
    requires Escaped(a) && Escaped(b)
    ensures Escaped(a + b)
    decreases |a|
  {
    if a != [] {
      assert (a + b)[0] == a[0];
      if Unreserved(a[0]) {
        assert (a + b)[1..] == a[1..] + b;
        EscapedAppend(a[1..], b);
      } else {
        assert (a + b)[1] == a[1] && (a + b)[2] == a[2];
        assert (a + b)[3..] == a[3..] + b;
        EscapedAppend(a[3..], b);
      }
    } else {
      assert a + b == b;
    }
  }

  lemma {:induction false} EscapeIsEscaped(bs: seq<Byte>)
    ensures Escaped(Escape(bs))
    decreases |bs|
  {
    if bs != [] {
      var t := Escape(bs);
      assert t[3..] == Escape(bs[1..]);
      EscapeIsEscaped(bs[1..]);
    }
  }

  /** Every code unit of an escaped string is unreserved or `%`. */
  lemma {:induction false} EscapedAlphabet(t: JsString)
    requires Escaped(t)
    ensures forall i :: 0 <= i < |t| ==> Unreserved(t[i]) || t[i] == PERCENT
    decreases |t|
  {
    if t != [] {
      var k := if Unreserved(t[0]) then 1 else 3;
      EscapedAlphabet(t[k..]);
      forall i | k <= i < |t|
        ensures Unreserved(t[i]) || t[i] == PERCENT
      {
        assert t[i] == t[k..][i - k];
      }
    }
  }

  /**
   * The output of `encodeURIComponent` consists of unreserved code units and
   * upper-case `%XY` escapes; in particular it holds no `&`, no `=` and
   * nothing outside ASCII.
   */
  lemma {:induction false} EncodeIsEscaped(s: JsString)
    requires Encode(s).Ok?
    ensures Escaped(Encode(s).value)
    ensures forall i :: 0 <= i < |Encode(s).value| ==>
      Encode(s).value[i] != '&' as int as CodeUnit && Encode(s).value[i] != '=' as int as CodeUnit
      && Encode(s).value[i] < 0x80
    decreases |s|
  {
    if s != [] {
      var c := s[0];
      if Unreserved(c) {
        EncodeIsEscaped(s[1..]);
        assert Escaped([c]);
        EscapedAppend([c], Encode(s[1..]).value);
      } else if !IsHighSurrogate(c) {
        EncodeIsEscaped(s[1..]);
        EscapeIsEscaped(Utf8(c as int));
        EscapedAppend(Escape(Utf8(c as int)), Encode(s[1..]).value);
      } else {
        EncodeIsEscaped(s[2..]);
        EscapeIsEscaped(Utf8(PairValue(c, s[1])));
        EscapedAppend(Escape(Utf8(PairValue(c, s[1]))), Encode(s[2..]).value);
      }
    }
    EscapedAlphabet(Encode(s).value);
  }

  /** `encodeURIComponent(s)` throws exactly when `s` holds a lone surrogate. */
  lemma {:induction false} EncodeSucceedsIff(s: JsString)
    ensures Encode(s).Ok? <==> WellFormed(s)
    decreases |s|
  {
    if s != [] {
      var c := s[0];
      if Unreserved(c) || !(IsLowSurrogate(c) || IsHighSurrogate(c)) {
        EncodeSucceedsIff(s[1..]);
      } else if IsHighSurrogate(c) && |s| >= 2 && IsLowSurrogate(s[1]) {
        EncodeSucceedsIff(s[2..]);
      }
    }
  }

  lemma {:induction false} EncodeLength(s: JsString)
    requires Encode(s).Ok?
    ensures |Encode(s).value| >= |s|
    ensures !AllUnreserved(s) ==> |Encode(s).value| >= |s| + 2
    decreases |s|
  {
    if s != [] {
      var c := s[0];
      if Unreserved(c) {
        EncodeLength(s[1..]);
        if !AllUnreserved(s) {
          var i :| 0 <= i < |s| && !Unreserved(s[i]);
          assert !Unreserved(s[1..][i - 1]);
        }
      } else if !IsHighSurrogate(c) {
        EncodeLength(s[1..]);
      } else {
        EncodeLength(s[2..]);
      }
    }
  }

  lemma {:induction false} EncodeUnreserved(s: JsString)
    requires AllUnreserved(s)
    ensures Encode(s) == Ok(s)
    decreases |s|
  {
    if s != [] {
      assert AllUnreserved(s[1..]) by {
        forall i | 0 <= i < |s| - 1
          ensures Unreserved(s[1..][i])
        {
          assert s[1..][i] == s[i + 1];
        }
      }
      EncodeUnreserved(s[1..]);
      assert s == [s[0]] + s[1..];
    }
  }

  /**
   * `encodeURIComponent` leaves a string unchanged exactly when every code
   * unit of it is unreserved.
   */
  lemma EncodeIdentityIff(s: JsString)
    ensures Encode(s) == Ok(s) <==> AllUnreserved(s)
  {
    if AllUnreserved(s) {
      EncodeUnreserved(s);
    } else if Encode(s).Ok? {
      EncodeLength(s);
    }
  }

  /** Taken alone, the code unit `c` is kept as it is exactly when it is unreserved, and otherwise escaped. */
  lemma EncodeUnit(c: CodeUnit)
    requires !IsLowSurrogate(c) && !IsHighSurrogate(c)
    ensures Unreserved(c) ==> Encode([c]) == Ok([c])
    ensures !Unreserved(c) ==> Encode([c]) == Ok(Escape(Utf8(c as int))) && Encode([c]).value[0] == PERCENT
  {
    assert [c][1..] == [];
    assert Encode([c][1..]) == Ok([]);
    if Unreserved(c) {
      assert [c] + [] == [c];
    } else {
      var e := Escape(Utf8(c as int));
      assert e + [] == e;
      assert Encode([c]) == Ok(e + []);
    }
  }

  /** `encodeURIComponent('/')` is `%2F`. */
  lemma EncodeSlash()
    ensures Encode(Lit("/")) == Ok(Lit("%2F"))
  {
    var s := Lit("/");
    assert s == [0x2F];
    assert !Unreserved(0x2F);
    EncodeUnit(0x2F);
    assert Encode(s) == Ok(Escape(Utf8(0x2F)));
    assert Utf8(0x2F) == [0x2F];
    assert Escape([0x2F]) == [PERCENT, HexDigit(2), HexDigit(15)] + Escape([]);
    assert Escape([0x2F]) == [0x25, 0x32, 0x46];
    assert Lit("%2F") == [0x25, 0x32, 0x46];
  }

  // ---------------------------------------------------------------------
  // Decoding undoes encoding

  lemma HexRoundTrip(d: int)
    requires 0 <= d < 16
    ensures HexValue(HexDigit(d)) == Some(d)
  {
  }

  lemma {:induction false} ReadEscape(bs: seq<Byte>, rest: JsString, n: nat)
    requires n <= |bs|
    ensures ReadBytes(Escape(bs) + rest, n) == Some(bs[..n])
    decreases n
  {
    if n > 0 {
      var t := Escape(bs) + rest;
      var b := bs[0];
      assert t[0] == PERCENT && t[1] == HexDigit(b / 16) && t[2] == HexDigit(b % 16);
      HexRoundTrip(b / 16);
      HexRoundTrip(b % 16);
      assert t[3..] == Escape(bs[1..]) + rest;
      ReadEscape(bs[1..], rest, n - 1);
      assert bs[..n] == [b] + bs[1..][..n - 1];
    }
  }

  lemma Utf8Decodes(cp: int)
    requires IsScalar(cp)
    ensures SequenceLength(Utf8(cp)[0]) == |Utf8(cp)|
    ensures Utf8Value(Utf8(cp)) == cp
  {
    var q := cp / 0x40;
    var r := cp % 0x40;
    assert cp == q * 0x40 + r;
    if cp >= 0x800 {
      assert q == (cp / 0x1000) * 0x40 + q % 0x40;
      assert cp / 0x1000 == q / 0x40;
      assert cp / 0x40 % 0x40 == q % 0x40;
      if cp >= 0x1_0000 {
        var q2 := cp / 0x1000;
        assert q2 == (cp / 0x4_0000) * 0x40 + q2 % 0x40;
        assert cp / 0x4_0000 == q2 / 0x40;
        assert cp / 0x1000 % 0x40 == q2 % 0x40;
      }
    }
  }

  lemma Utf16OfUnit(c: CodeUnit)
    requires !IsLowSurrogate(c) && !IsHighSurrogate(c)
    ensures IsScalar(c as int) && Utf16(c as int) == [c]
  {
  }

  lemma Utf16OfPair(hi: CodeUnit, lo: CodeUnit)
    requires IsHighSurrogate(hi) && IsLowSurrogate(lo)
    ensures Utf16(PairValue(hi, lo)) == [hi, lo]
  {
    var v := (hi as int - 0xD800) * 0x400 + (lo as int - 0xDC00);
    assert v / 0x400 == hi as int - 0xD800;
    assert v % 0x400 == lo as int - 0xDC00;
  }

  /** The escapes of one scalar value decode to its UTF-16 code units. */
  lemma DecodeEscaped(cp: int, rest: JsString)
    requires IsScalar(cp)
    ensures Decode(Escape(Utf8(cp)) + rest) ==
      (if Decode(rest).Some? then Some(Utf16(cp) + Decode(rest).value) else None)
  {
    var bs := Utf8(cp);
    var t := Escape(bs) + rest;
    ReadEscape(bs, rest, 1);
    ReadEscape(bs, rest, |bs|);
    Utf8Decodes(cp);
    assert bs[..|bs|] == bs;
    assert t[0] == PERCENT;
    assert t[3 * |bs|..] == rest;
  }

  /** `decodeURIComponent(encodeURIComponent(s)) == s` for every string without lone surrogates. */
  lemma {:induction false} EncodeDecodeRoundTrip(s: JsString)
    requires WellFormed(s)
    ensures Encode(s).Ok? && Decode(Encode(s).value) == Some(s)
    decreases |s|
  {
    if s != [] {
      var c := s[0];
      if Unreserved(c) {
        EncodeDecodeRoundTrip(s[1..]);
        var t := [c] + Encode(s[1..]).value;
        assert t[1..] == Encode(s[1..]).value;
        assert s == [c] + s[1..];
      } else if !IsHighSurrogate(c) {
        EncodeDecodeRoundTrip(s[1..]);
        DecodeEscaped(c as int, Encode(s[1..]).value);
        Utf16OfUnit(c);
        assert s == [c] + s[1..];
      } else {
        EncodeDecodeRoundTrip(s[2..]);
        DecodeEscaped(PairValue(c, s[1]), Encode(s[2..]).value);
        Utf16OfPair(c, s[1]);
        assert s == [c, s[1]] + s[2..];
      }
    }
  }

  /** A string of ASCII code units has no surrogates, so encoding it cannot throw. */
  lemma {:induction false} AsciiWellFormed(t: JsString)
    requires forall i :: 0 <= i < |t| ==> t[i] < 0x80
    ensures WellFormed(t)
    decreases |t|
  {
    if t != [] {
      assert forall i :: 0 <= i < |t[1..]| ==> t[1..][i] < 0x80 by {
        forall i | 0 <= i < |t[1..]|
          ensures t[1..][i] < 0x80
        {
          assert t[1..][i] == t[i + 1];
        }
      }
      AsciiWellFormed(t[1..]);
    }
  }
}
