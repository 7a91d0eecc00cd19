/** Percent-encoding of byte strings, in the style of section 2.1 of RFC 3986. */
module UrlCodec {
  import opened Chunks
  import opened Options
  import opened Sequences

  const PLUS: Byte := 43
  const SPACE: Byte := 32
  const PERCENT: Byte := 37

  // uri_chars: the unreserved set of section 2.3 of RFC 3986, and '='
  predicate Unreserved(b: Byte)
  {
    || b == 45 || b == 46 || 48 <= b <= 57 || b == 61
    || 65 <= b <= 90 || b == 95 || 97 <= b <= 122 || b == 126
  }

  predicate UpperHex(b: Byte) { 48 <= b <= 57 || 65 <= b <= 70 }

  predicate IsHex(b: Byte) { UpperHex(b) || 97 <= b <= 102 }

  // hexdigits
  function HexDigit(d: nat): (b: Byte)
    requires d < 16
    ensures UpperHex(b)
  {
    if d < 10 then 48 + d else 55 + d
  }

  // xdigit_chars, with its zeros
  function HexValue(b: Byte): (d: nat)
    ensures d < 16
  {
    if 48 <= b <= 57 then b - 48 else if 65 <= b <= 70 then b - 55 else if 97 <= b <= 102 then b - 87 else 0
  }

  lemma HexInverse(d: nat, b: Byte)
    ensures d < 16 ==> HexValue(HexDigit(d)) == d
    ensures UpperHex(b) ==> HexDigit(HexValue(b)) == b
  {
  }

  /* ---------- character by character ---------- */

  function EncodeByte(b: Byte, plus: bool): (r: seq<Byte>)
    ensures 1 <= |r| <= 3
  {
    if Unreserved(b) then [b]
    else if b == SPACE && plus then [PLUS]
    else [PERCENT, HexDigit(b / 16), HexDigit(b % 16)]
  }

  function Encode(s: seq<Byte>, plus: bool): seq<Byte>
  {
    if s == [] then [] else EncodeByte(s[0], plus) + Encode(s[1..], plus)
  }

  predicate Escape(t: seq<Byte>) { |t| > 2 && t[0] == PERCENT && IsHex(t[1]) && IsHex(t[2]) }

  function EscapeValue(t: seq<Byte>): Byte
    requires Escape(t)
  {
    HexValue(t[1]) * 16 + HexValue(t[2])
  }

  function Decode(t: seq<Byte>, plus: bool): seq<Byte>
  {
    if t == [] then []
    else if t[0] == PLUS && plus then [SPACE] + Decode(t[1..], plus)
    else if Escape(t) then [EscapeValue(t)] + Decode(t[3..], plus)
    else [t[0]] + Decode(t[1..], plus)
  }

  /* ---------- escapes and their digits ---------- */

  // The tables, in characters: '=' is in the first although RFC 3986 reserves it.
  lemma TablesExactly(b: Byte)
    ensures var c := b as char;
      && (Unreserved(b) <==> c in "-._~=" || '0' <= c <= '9' || 'A' <= c <= 'Z' || 'a' <= c <= 'z')
      && (IsHex(b) <==> '0' <= c <= '9' || 'A' <= c <= 'F' || 'a' <= c <= 'f')
  {
  }

  // Either spelling of a digit has its place in the row of digits as value; the encoder writes
  // the upper-case one.
  lemma DigitsExactly(d: nat)
    requires d < 16
    ensures HexDigit(d) as char == "0123456789ABCDEF"[d]
    ensures IsHex("0123456789ABCDEF"[d] as Byte) && HexValue("0123456789ABCDEF"[d] as Byte) == d
    ensures IsHex("0123456789abcdef"[d] as Byte) && HexValue("0123456789abcdef"[d] as Byte) == d
  {
  }

  // What each byte is written as.
  lemma EncodeByteExactly(b: Byte, plus: bool)
    ensures Unreserved(b) ==> EncodeByte(b, plus) == [b]
    ensures b as char == ' ' && plus ==> EncodeByte(b, plus) == ['+' as Byte]
    ensures var row := "0123456789ABCDEF";
      !Unreserved(b) && !(b as char == ' ' && plus) ==> EncodeByte(b, plus) == ['%' as Byte, row[b / 16] as Byte, row[b % 16] as Byte]
  {
    hide HexDigit;
    DigitsExactly(b / 16);
    DigitsExactly(b % 16);
  }

  // A spelling of a digit, in either case.
  predicate Spells(b: Byte, d: nat)
    requires d < 16
  {
    b as char == "0123456789ABCDEF"[d] || b as char == "0123456789abcdef"[d]
  }

  // An escape stands for the byte with those digits, the first one high, in either case.
  lemma EscapeExactly(t: seq<Byte>, hi: nat, lo: nat, plus: bool)
    requires hi < 16 && lo < 16 && |t| >= 3
    requires t[0] as char == '%' && Spells(t[1], hi) && Spells(t[2], lo)
    ensures Decode(t, plus) == [16 * hi + lo] + Decode(t[3..], plus)
  {
    hide IsHex, HexValue;
    DigitsExactly(hi);
    DigitsExactly(lo);
  }

  // Anything else stands for itself, but for a '+' read as a space.
  lemma OtherwiseExactly(t: seq<Byte>, plus: bool)
    requires t != []
    requires !(t[0] as char == '%' && |t| >= 3 && IsHex(t[1]) && IsHex(t[2]))
    ensures Decode(t, plus) == [if t[0] as char == '+' && plus then ' ' as Byte else t[0]] + Decode(t[1..], plus)
  {
  }

  function UpperCase(b: Byte): Byte { if 'a' <= b as char <= 'z' then b - 32 else b }

  // The same text with the digits of its escapes in upper case.
  function UpperEscapes(t: seq<Byte>): (r: seq<Byte>)
    ensures |r| == |t|
  {
    if t == [] then []
    else if t[0] as char == '%' && |t| >= 3 && IsHex(t[1]) && IsHex(t[2]) then
      [t[0], UpperCase(t[1]), UpperCase(t[2])] + UpperEscapes(t[3..])
    else [t[0]] + UpperEscapes(t[1..])
  }

  lemma UpperDigits(b: Byte)
    requires IsHex(b)
    ensures UpperHex(UpperCase(b)) && HexValue(UpperCase(b)) == HexValue(b)
  {
  }

  // The case of the digits does not matter.
  lemma {:induction false} CaseDoesNotMatter(t: seq<Byte>, plus: bool)
    ensures Decode(UpperEscapes(t), plus) == Decode(t, plus)
  {
    if t != [] {
      hide IsHex, HexValue, UpperCase;
      var u := UpperEscapes(t);
      if Escape(t) {
        UpperDigits(t[1]);
        UpperDigits(t[2]);
        CaseDoesNotMatter(t[3..], plus);
        assert u[3..] == UpperEscapes(t[3..]);
        HexOfUpper(u[1]);
        HexOfUpper(u[2]);
      } else {
        CaseDoesNotMatter(t[1..], plus);
        assert u[1..] == UpperEscapes(t[1..]);
        UpperFront(t);
      }
    }
  }

  // A character that begins no escape begins none afterwards.
  lemma UpperFront(t: seq<Byte>)
    requires t != [] && !Escape(t)
    ensures !Escape(UpperEscapes(t))
  {
    if |t| > 2 && t[0] == PERCENT {
      UpperHead(t[1..]);
      UpperHead(t[2..]);
      if t[1] != PERCENT { assert UpperEscapes(t[1..]) == [t[1]] + UpperEscapes(t[2..]) by { assert t[1..][1..] == t[2..]; } }
    }
  }

  lemma UpperHead(t: seq<Byte>)
    requires t != []
    ensures UpperEscapes(t)[0] == t[0]
  {
  }

  lemma HexOfUpper(b: Byte)
    ensures UpperHex(b) ==> IsHex(b)
  {
  }

  /* ---------- decoding what was encoded ---------- */

  lemma EscapeOf(b: Byte, rest: seq<Byte>)
    ensures var t := [PERCENT, HexDigit(b / 16), HexDigit(b % 16)] + rest;
      Escape(t) && EscapeValue(t) == b && t[3..] == rest
  {
    HexInverse(b / 16, 0);
    HexInverse(b % 16, 0);
  }

  // One encoded byte in front of anything decodes to that byte, but for a '+' read without the flag.
  lemma DecodeEncoded(b: Byte, rest: seq<Byte>, written: bool, read: bool)
    ensures Decode(EncodeByte(b, written) + rest, read)
         == [if b == SPACE && written && !read then PLUS else b] + Decode(rest, read)
  {
    hide Escape, EscapeValue, HexDigit;
    var t := EncodeByte(b, written) + rest;
    if Unreserved(b) || (b == SPACE && written) {
      assert t[1..] == rest;
      NotEscape(t);
    } else {
      EscapeOf(b, rest);
    }
  }

  lemma NotEscape(t: seq<Byte>)
    ensures t != [] && t[0] != PERCENT ==> !Escape(t)
  {
  }

  // Reading back gives the string, for the same flag and every other choice of the two flags,
  // except that a space written as '+' is not read back without the flag.
  lemma {:induction false} RoundTripExactly(s: seq<Byte>, written: bool, read: bool)
    ensures Decode(Encode(s, written), read) == s <==> (written && !read ==> SPACE !in s)
  {
    if s != [] {
      DecodeEncoded(s[0], Encode(s[1..], written), written, read);
      RoundTripExactly(s[1..], written, read);
      assert s == [s[0]] + s[1..];
    }
  }

  lemma RoundTrip(s: seq<Byte>, plus: bool)
    ensures Decode(Encode(s, plus), plus) == s
  {
    RoundTripExactly(s, plus, plus);
  }

  lemma EncodeInjective(a: seq<Byte>, b: seq<Byte>, plus: bool)
    requires Encode(a, plus) == Encode(b, plus)
    ensures a == b
  {
    RoundTrip(a, plus);
    RoundTrip(b, plus);
  }

  /* ---------- the grammar of encoder output ---------- */

  // A table character; '+' under the flag; or '%' and two upper-case digits for a byte that has
  // no shorter form.
  predicate Canonical(t: seq<Byte>, plus: bool)
  {
    || t == []
    || (Unreserved(t[0]) && Canonical(t[1..], plus))
    || (t[0] == PLUS && plus && Canonical(t[1..], plus))
    || (CanonicalEscape(t, plus) && Canonical(t[3..], plus))
  }

  predicate CanonicalEscape(t: seq<Byte>, plus: bool)
  {
    Escape(t) && UpperHex(t[1]) && UpperHex(t[2])
    && !Unreserved(EscapeValue(t)) && !(EscapeValue(t) == SPACE && plus)
  }

  lemma {:induction false} EncodeIsCanonical(s: seq<Byte>, plus: bool)
    ensures Canonical(Encode(s, plus), plus)
  {
    hide Escape, EscapeValue, HexDigit;
    if s != [] {
      var rest := Encode(s[1..], plus);
      EncodeIsCanonical(s[1..], plus);
      var t := EncodeByte(s[0], plus) + rest;
      if Unreserved(s[0]) || (s[0] == SPACE && plus) {
        assert t[1..] == rest;
      } else {
        EscapeOf(s[0], rest);
      }
    }
  }

  // Encoding what was decoded restores exactly the canonical strings.
  lemma {:induction false} DecodeEncodeExactly(t: seq<Byte>, plus: bool)
    ensures Encode(Decode(t, plus), plus) == t <==> Canonical(t, plus)
  {
    if Encode(Decode(t, plus), plus) == t { EncodeIsCanonical(Decode(t, plus), plus); }
    if Canonical(t, plus) { CanonicalRestores(t, plus); }
  }

  lemma {:induction false} CanonicalRestores(t: seq<Byte>, plus: bool)
    requires Canonical(t, plus)
    ensures Encode(Decode(t, plus), plus) == t
  {
    if t != [] {
      hide HexDigit, EscapeValue;
      if CanonicalEscape(t, plus) && Canonical(t[3..], plus) {
        CanonicalRestores(t[3..], plus);
        EscapeRestores(t, plus);
        EncodeFront(EscapeValue(t), Decode(t[3..], plus), plus);
        assert t == t[..3] + t[3..];
      } else {
        CanonicalRestores(t[1..], plus);
        NotEscape(t);
        EncodeFront(if t[0] == PLUS && plus then SPACE else t[0], Decode(t[1..], plus), plus);
        assert t == t[..1] + t[1..];
      }
    }
  }

  lemma EscapeRestores(t: seq<Byte>, plus: bool)
    requires CanonicalEscape(t, plus)
    ensures EncodeByte(EscapeValue(t), plus) == t[..3]
  {
    HexInverse(0, t[1]);
    HexInverse(0, t[2]);
    var v := EscapeValue(t);
    assert v / 16 == HexValue(t[1]) && v % 16 == HexValue(t[2]);
  }

  lemma EncodeNothing(plus: bool)
    ensures Encode([], plus) == []
  {
  }

  lemma EncodeFront(b: Byte, s: seq<Byte>, plus: bool)
    ensures Encode([b] + s, plus) == EncodeByte(b, plus) + Encode(s, plus)
  {
    assert ([b] + s)[1..] == s;
  }

  // Only table characters, '%', and '+' when asked for, ever come out.
  lemma {:induction false} EncodeAlphabet(s: seq<Byte>, plus: bool)
    ensures forall b :: b in Encode(s, plus) ==> Unreserved(b) || b == PERCENT || (b == PLUS && plus)
    ensures |s| <= |Encode(s, plus)| <= 3 * |s|
  {
    if s != [] { EncodeAlphabet(s[1..], plus); }
  }

  /* ---------- the loops, with a buffer made at the first change ---------- */

  lemma {:induction false} EncodeAppend(a: seq<Byte>, b: seq<Byte>, plus: bool)
    ensures Encode(a + b, plus) == Encode(a, plus) + Encode(b, plus)
  {
    if a == [] {
      assert a + b == b;
    } else {
      hide EncodeByte;
      EncodeAppend(a[1..], b, plus);
      assert a + b == [a[0]] + (a[1..] + b);
      EncodeFront(a[0], a[1..] + b, plus);
      JoinAssoc(EncodeByte(a[0], plus), Encode(a[1..], plus), Encode(b, plus));
    }
  }

  lemma EncodeSnoc(s: seq<Byte>, i: nat, plus: bool)
    requires i < |s|
    ensures Encode(s[..i + 1], plus) == Encode(s[..i], plus) + EncodeByte(s[i], plus)
  {
    assert s[..i + 1] == s[..i] + [s[i]];
    EncodeAppend(s[..i], [s[i]], plus);
    assert EncodeByte(s[i], plus) + [] == EncodeByte(s[i], plus);
    EncodeFront(s[i], [], plus);
    assert [s[i]] + [] == [s[i]];
  }

  lemma {:induction false} EncodeUnchangedExactly(s: seq<Byte>, plus: bool)
    ensures Encode(s, plus) == s <==> forall b :: b in s ==> Unreserved(b)
  {
    if s != [] {
      var rest := Encode(s[1..], plus);
      EncodeUnchangedExactly(s[1..], plus);
      EncodeAlphabet(s[1..], plus);
      assert s == [s[0]] + s[1..];
      if Unreserved(s[0]) {
        assert Encode(s, plus)[1..] == rest;
      }
    }
  }

  lemma {:induction false} DecodeShrinks(t: seq<Byte>, plus: bool)
    ensures |Decode(t, plus)| <= |t|
  {
    if t != [] {
      DecodeShrinks(t[1..], plus);
      if Escape(t) { DecodeShrinks(t[3..], plus); }
    }
  }

  lemma {:induction false} DecodeUnchangedExactly(t: seq<Byte>, plus: bool)
    ensures Decode(t, plus) == t <==> Plain(t, plus)
  {
    if t != [] {
      DecodeUnchangedExactly(t[1..], plus);
      if Escape(t) {
        DecodeShrinks(t[3..], plus);
      } else {
        assert t == [t[0]] + t[1..];
        if !(t[0] == PLUS && plus) { assert Decode(t, plus)[1..] == Decode(t[1..], plus); }
      }
    }
  }

  // The result, and the untouched input itself when nothing needs encoding.
  method UrlEncode(str: seq<Byte>, spaceAsPlus: bool) returns (r: seq<Byte>)
    ensures r == Encode(str, spaceAsPlus)
    ensures r == str <==> forall b :: b in str ==> Unreserved(b)
  {
    hide Encode, HexDigit, Unreserved;
    var ss: Option<seq<Byte>> := None;
    assert Encode([], spaceAsPlus) == [] by { EncodeNothing(spaceAsPlus); }
    for c := 0 to |str|
      invariant ss.None? ==> Encode(str[..c], spaceAsPlus) == str[..c]
      invariant ss.Some? ==> ss.value == Encode(str[..c], spaceAsPlus)
      invariant ss.None? <==> forall i :: 0 <= i < c ==> Unreserved(str[i])
    {
      EncodeSnoc(str, c, spaceAsPlus);
      assert str[..c + 1] == str[..c] + [str[c]];
      if !Unreserved(str[c]) {
        if ss.None? {
          ss := Some(str[..c]);
        }
        if str[c] == SPACE && spaceAsPlus {
          ss := Some(ss.value + [PLUS]);
        } else {
          ss := Some(ss.value + [PERCENT] + [HexDigit(str[c] / 16)] + [HexDigit(str[c] % 16)]);
        }
      } else if ss.Some? {
        ss := Some(ss.value + [str[c]]);
      }
    }
    assert str[..|str|] == str;
    EncodeUnchangedExactly(str, spaceAsPlus);
    r := if ss.None? then str else ss.value;
  }

  // As DecodeUnchangedExactly: where nothing is an escape and no '+' stands for a space.
  predicate Plain(t: seq<Byte>, plus: bool)
  {
    t == [] || (!(t[0] == PLUS && plus) && !Escape(t) && Plain(t[1..], plus))
  }

  lemma DecodeNothing(plus: bool)
    ensures Decode([], plus) == []
  {
  }

  lemma DecodeCases(t: seq<Byte>, plus: bool)
    requires t != []
    ensures t[0] == PLUS && plus ==> Decode(t, plus) == [SPACE] + Decode(t[1..], plus)
    ensures !(t[0] == PLUS && plus) && Escape(t) ==> Decode(t, plus) == [EscapeValue(t)] + Decode(t[3..], plus)
    ensures !(t[0] == PLUS && plus) && !Escape(t) ==> Decode(t, plus) == [t[0]] + Decode(t[1..], plus)
  {
  }

  // The position goes over a whole escape at once, as c += 2 before ++c.
  method UrlDecode(str: seq<Byte>, spaceAsPlus: bool) returns (r: seq<Byte>)
    ensures r == Decode(str, spaceAsPlus)
    ensures r == str <==> Plain(str, spaceAsPlus)
  {
    hide Decode, Plain, IsHex, HexValue;
    var ss: Option<seq<Byte>> := None;
    var c: nat := 0;
    assert str[0..] == str;
    while c < |str|
      invariant c <= |str|
      invariant ss.None? ==> Decode(str, spaceAsPlus) == str[..c] + Decode(str[c..], spaceAsPlus)
      invariant ss.Some? ==> Decode(str, spaceAsPlus) == ss.value + Decode(str[c..], spaceAsPlus)
    {
      ghost var t := str[c..];
      DecodeCases(t, spaceAsPlus);
      ghost var before := if ss.None? then str[..c] else ss.value;
      assert str[..c + 1] == str[..c] + [str[c]];
      assert t[1..] == str[c + 1..] && (|t| > 2 ==> t[3..] == str[c + 3..]);
      if str[c] == PLUS && spaceAsPlus {
        JoinAssoc(before, [SPACE], Decode(t[1..], spaceAsPlus));
        if ss.None? {
          ss := Some(str[..c]);
        }
        ss := Some(ss.value + [SPACE]);
      } else if str[c] == PERCENT && c + 2 < |str| && IsHex(str[c + 1]) && IsHex(str[c + 2]) {
        JoinAssoc(before, [EscapeValue(t)], Decode(t[3..], spaceAsPlus));
        if ss.None? {
          ss := Some(str[..c]);
        }
        ss := Some(ss.value + [HexValue(str[c + 1]) * 16 + HexValue(str[c + 2])]);
        c := c + 2;
      } else {
        JoinAssoc(before, [t[0]], Decode(t[1..], spaceAsPlus));
        if ss.Some? {
          ss := Some(ss.value + [str[c]]);
        }
      }
      c := c + 1;
    }
    assert str[c..] == [] && str[..c] == str;
    DecodeNothing(spaceAsPlus);
    DecodeUnchangedExactly(str, spaceAsPlus);
    r := if ss.None? then str else ss.value;
  }
}
