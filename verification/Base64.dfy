/** Unpadded standard base64, by sections 3.2, 3.5 and 4 of RFC 4648, decoded strictly. */
module Base64 {
  import opened ByteStrings

  /** A value of six bits. */
  type Six = b: int | 0 <= b < 64

  function Symbol(v: Six): Byte {
    if v < 26 then 65 + v else if v < 52 then 71 + v else if v < 62 then v - 4 else if v == 62 then 43 else 47
  }

  function ValueOf(c: Byte): Option<Six> {
    if 65 <= c <= 90 then Some(c - 65)
    else if 97 <= c <= 122 then Some(c - 71)
    else if 48 <= c <= 57 then Some(c + 4)
    else if c == 43 then Some(62)
    else if c == 47 then Some(63)
    else None
  }

  lemma SymbolValue(v: Six)
    ensures ValueOf(Symbol(v)) == Some(v)
  {
  }

  lemma ValueSymbol(c: Byte)
    requires ValueOf(c).Some?
    ensures Symbol(ValueOf(c).value) == c
  {
  }

  /** The symbols of up to three bytes. */
  function EncodeGroup(g: Bytes): Bytes
    requires 0 < |g| <= 3
  {
    var a, b, c := g[0] as int, if |g| > 1 then g[1] as int else 0, if |g| > 2 then g[2] as int else 0;
    var all := [Symbol(a / 4), Symbol(a % 4 * 16 + b / 16), Symbol(b % 16 * 4 + c / 64), Symbol(c % 64)];
    all[..|g| + 1]
  }

  function Encode(s: Bytes): Bytes {
    if s == [] then [] else if |s| <= 3 then EncodeGroup(s) else EncodeGroup(s[..3]) + Encode(s[3..])
  }

  /** The bytes of two to four symbols; bits left over must be zero. */
  function DecodeGroup(g: Bytes): Option<Bytes>
    requires 0 < |g| <= 4
  {
    if |g| == 1 || ValueOf(g[0]).None? || ValueOf(g[1]).None? then None
    else
      var a, b := ValueOf(g[0]).value as int, ValueOf(g[1]).value as int;
      var first := a * 4 + b / 16;
      if |g| == 2 then if b % 16 == 0 then Some([first]) else None
      else if ValueOf(g[2]).None? then None
      else
        var c := ValueOf(g[2]).value as int;
        var second := b % 16 * 16 + c / 4;
        if |g| == 3 then if c % 4 == 0 then Some([first, second]) else None
        else if ValueOf(g[3]).None? then None
        else Some([first, second, c % 4 * 64 + ValueOf(g[3]).value as int])
  }

  function DecodeSymbols(s: Bytes): Option<Bytes> {
    if s == [] then Some([])
    else if |s| <= 4 then DecodeGroup(s)
    else
      var first, rest := DecodeGroup(s[..4]), DecodeSymbols(s[4..]);
      if first.None? || rest.None? then None else Some(first.value + rest.value)
  }

  predicate IsBreak(c: Byte) { c == 10 || c == 13 }

  predicate NoBreaks(s: Bytes) { forall i :: 0 <= i < |s| ==> !IsBreak(s[i]) }

  /** The decoder passes over line breaks, strict or not. */
  function WithoutBreaks(s: Bytes): Bytes {
    if s == [] then [] else WithoutBreaks(s[..|s| - 1]) + if IsBreak(s[|s| - 1]) then [] else [s[|s| - 1]]
  }

  function Decode(s: Bytes): Option<Bytes> { DecodeSymbols(WithoutBreaks(s)) }

  lemma {:induction false} NothingToSkip(s: Bytes)
    requires NoBreaks(s)
    ensures WithoutBreaks(s) == s
  {
    if s != [] {
      NothingToSkip(s[..|s| - 1]);
      assert s[..|s| - 1] + [s[|s| - 1]] == s;
    }
  }

  lemma DecodeOfOne(a: Byte)
    ensures DecodeGroup([Symbol(a / 4), Symbol(a % 4 * 16)]) == Some([a])
  {
    SymbolValue(a / 4);
    SymbolValue(a % 4 * 16);
    hide Symbol, ValueOf;
  }

  lemma DecodeOfTwo(a: Byte, b: Byte)
    ensures DecodeGroup([Symbol(a / 4), Symbol(a % 4 * 16 + b / 16), Symbol(b % 16 * 4)]) == Some([a, b])
  {
    var y: int := a % 4 * 16 + b / 16;
    SymbolValue(a / 4);
    SymbolValue(y);
    SymbolValue(b % 16 * 4);
    hide Symbol, ValueOf;
    assert y / 16 == a % 4 && y % 16 == b / 16;
  }

  lemma DecodeOfThree(a: Byte, b: Byte, c: Byte)
    ensures DecodeGroup([Symbol(a / 4), Symbol(a % 4 * 16 + b / 16), Symbol(b % 16 * 4 + c / 64), Symbol(c % 64)]) == Some([a, b, c])
  {
    var y: int, z: int := a % 4 * 16 + b / 16, b % 16 * 4 + c / 64;
    SymbolValue(a / 4);
    SymbolValue(y);
    SymbolValue(z);
    SymbolValue(c % 64);
    hide Symbol, ValueOf;
    assert y / 16 == a % 4 && y % 16 == b / 16;
    assert z / 4 == b % 16 && z % 4 == c / 64;
  }

  lemma EncodedGroup(g: Bytes)
    requires 0 < |g| <= 3
    ensures |EncodeGroup(g)| == |g| + 1 && DecodeGroup(EncodeGroup(g)) == Some(g)
    ensures forall i :: 0 <= i < |EncodeGroup(g)| ==> ValueOf(EncodeGroup(g)[i]).Some?
  {
    hide Symbol, ValueOf, DecodeGroup;
    var a, b, c := g[0], if |g| > 1 then g[1] else 0, if |g| > 2 then g[2] else 0;
    SymbolValue(a / 4);
    SymbolValue(a % 4 * 16 + b / 16);
    SymbolValue(b % 16 * 4 + c / 64);
    SymbolValue(c % 64);
    if |g| == 1 {
      DecodeOfOne(a);
      assert g == [a] && EncodeGroup(g) == [Symbol(a / 4), Symbol(a % 4 * 16)];
    } else if |g| == 2 {
      DecodeOfTwo(a, b);
      assert g == [a, b] && EncodeGroup(g) == [Symbol(a / 4), Symbol(a % 4 * 16 + b / 16), Symbol(b % 16 * 4)];
    } else {
      DecodeOfThree(a, b, c);
      assert g == [a, b, c];
      assert EncodeGroup(g)
          == [Symbol(a / 4), Symbol(a % 4 * 16 + b / 16), Symbol(b % 16 * 4 + c / 64), Symbol(c % 64)];
    }
  }

  lemma {:induction false} EncodedSymbols(s: Bytes)
    ensures forall i :: 0 <= i < |Encode(s)| ==> ValueOf(Encode(s)[i]).Some?
    ensures DecodeSymbols(Encode(s)) == Some(s)
  {
    hide EncodeGroup, DecodeGroup, ValueOf;
    if s != [] {
      if |s| <= 3 {
        EncodedGroup(s);
      } else {
        EncodedGroup(s[..3]);
        EncodedSymbols(s[3..]);
        var e := Encode(s);
        assert e[..4] == EncodeGroup(s[..3]) && e[4..] == Encode(s[3..]);
        EncodeNotEmpty(s[3..]);
        assert s[..3] + s[3..] == s;
      }
    }
  }

  lemma EncodeNotEmpty(s: Bytes)
    requires s != []
    ensures Encode(s) != []
  {
  }

  lemma SymbolsHaveNoBreaks(s: Bytes)
    requires forall i :: 0 <= i < |s| ==> ValueOf(s[i]).Some?
    ensures NoBreaks(s)
  {
  }

  /** What is encoded decodes to itself. */
  lemma DecodeEncoded(s: Bytes)
    ensures Decode(Encode(s)) == Some(s)
  {
    EncodedSymbols(s);
    hide Encode, DecodeSymbols;
    SymbolsHaveNoBreaks(Encode(s));
    NothingToSkip(Encode(s));
  }

  lemma EncodeOfTwo(a: Six, b: Six)
    requires b % 16 == 0
    ensures EncodeGroup([a * 4 + b / 16]) == [Symbol(a), Symbol(b)]
  {
    hide Symbol;
    var x: int := a * 4 + b / 16;
    assert x / 4 == a && x % 4 * 16 == b;
  }

  lemma EncodeOfThree(a: Six, b: Six, c: Six)
    requires c % 4 == 0
    ensures EncodeGroup([a * 4 + b / 16, b % 16 * 16 + c / 4]) == [Symbol(a), Symbol(b), Symbol(c)]
  {
    hide Symbol;
    var x: int, y: int := a * 4 + b / 16, b % 16 * 16 + c / 4;
    assert x / 4 == a && x % 4 * 16 + y / 16 == b && y % 16 * 4 == c;
  }

  lemma EncodeOfFour(a: Six, b: Six, c: Six, d: Six)
    ensures EncodeGroup([a * 4 + b / 16, b % 16 * 16 + c / 4, c % 4 * 64 + d]) == [Symbol(a), Symbol(b), Symbol(c), Symbol(d)]
  {
    hide Symbol;
    var x: int, y: int, z: int := a * 4 + b / 16, b % 16 * 16 + c / 4, c % 4 * 64 + d;
    assert x / 4 == a && x % 4 * 16 + y / 16 == b;
    assert y % 16 * 4 + z / 64 == c && z % 64 == d;
  }

  lemma DecodedGroup(g: Bytes)
    requires 0 < |g| <= 4 && DecodeGroup(g).Some?
    ensures 1 <= |DecodeGroup(g).value| == |g| - 1 && EncodeGroup(DecodeGroup(g).value) == g
  {
    hide Symbol, ValueOf, EncodeGroup;
    var a, b := ValueOf(g[0]).value, ValueOf(g[1]).value;
    ValueSymbol(g[0]);
    ValueSymbol(g[1]);
    if |g| == 2 {
      EncodeOfTwo(a, b);
      assert g == [g[0], g[1]];
    } else {
      var c := ValueOf(g[2]).value;
      ValueSymbol(g[2]);
      if |g| == 3 {
        EncodeOfThree(a, b, c);
        assert g == [g[0], g[1], g[2]];
      } else {
        var d := ValueOf(g[3]).value;
        ValueSymbol(g[3]);
        EncodeOfFour(a, b, c, d);
        assert g == [g[0], g[1], g[2], g[3]];
      }
    }
  }

  /** Strict decoding accepts one text for each value: encoding what it decodes gives the text back. */
  lemma {:induction false} EncodeDecoded(s: Bytes)
    requires DecodeSymbols(s).Some?
    ensures Encode(DecodeSymbols(s).value) == s
  {
    hide EncodeGroup, DecodeGroup;
    if s != [] {
      if |s| <= 4 {
        DecodedGroup(s);
      } else {
        DecodedGroup(s[..4]);
        EncodeDecoded(s[4..]);
        var first, rest := DecodeGroup(s[..4]).value, DecodeSymbols(s[4..]).value;
        assert rest != [];
        assert (first + rest)[..3] == first && (first + rest)[3..] == rest;
        assert s[..4] + s[4..] == s;
      }
    }
  }

  // ---------- the bits ----------

  const UPPER: Bytes := Ascii("ABCDEFGHIJKLMNOPQRSTUVWXYZ")
  const LOWER: Bytes := Ascii("abcdefghijklmnopqrstuvwxyz")
  const DIGITS: Bytes := Ascii("0123456789")

  /** The symbols are those of table 1 in section 4 of RFC 4648. */
  lemma SymbolsAre(v: Six)
    ensures |UPPER| == 26 && |LOWER| == 26 && |DIGITS| == 10
    ensures Symbol(v) == (UPPER + LOWER + DIGITS + Ascii("+/"))[v]
  {
    UpperAre(v);
    LowerAre(v);
    DigitsAre(v);
    assert Ascii("+/") == [43, 47];
    hide Ascii;
  }

  lemma UpperAre(v: Six)
    ensures |UPPER| == 26 && (v < 26 ==> UPPER[v] == Symbol(v))
  {
  }

  lemma LowerAre(v: Six)
    ensures |LOWER| == 26 && (26 <= v < 52 ==> LOWER[v - 26] == Symbol(v))
  {
  }

  lemma DigitsAre(v: Six)
    ensures |DIGITS| == 10 && (52 <= v < 62 ==> DIGITS[v - 52] == Symbol(v))
  {
  }

  /** The byte at a place, or zero behind the end. */
  function ByteAt(s: Bytes, i: nat): int { if i < |s| then s[i] as int else 0 }

  /** The six bits at a place, or zeros behind the end. */
  function BitsAt(e: Bytes, i: nat): int { if i < |e| && ValueOf(e[i]).Some? then ValueOf(e[i]).value as int else 0 }

  /** Three bytes and four symbols are the same 24 bits. */
  predicate SameBits(s: Bytes, e: Bytes, k: nat) {
    65536 * ByteAt(s, 3 * k) + 256 * ByteAt(s, 3 * k + 1) + ByteAt(s, 3 * k + 2)
    == 262144 * BitsAt(e, 4 * k) + 4096 * BitsAt(e, 4 * k + 1) + 64 * BitsAt(e, 4 * k + 2) + BitsAt(e, 4 * k + 3)
  }

  lemma GroupBits(a: Byte, b: Byte, c: Byte)
    ensures 65536 * a + 256 * b + c
         == 262144 * (a / 4) + 4096 * (a % 4 * 16 + b / 16) + 64 * (b % 16 * 4 + c / 64) + c % 64
  {
    assert a == a / 4 * 4 + a % 4 && b == b / 16 * 16 + b % 16 && c == c / 64 * 64 + c % 64;
  }

  lemma EncodedGroupBits(g: Bytes)
    requires 0 < |g| <= 3
    ensures |EncodeGroup(g)| == |g| + 1 && SameBits(g, EncodeGroup(g), 0)
  {
    hide Symbol, ValueOf;
    var a, b, c := g[0], if |g| > 1 then g[1] else 0, if |g| > 2 then g[2] else 0;
    GroupBits(a, b, c);
    SymbolValue(a / 4);
    SymbolValue(a % 4 * 16 + b / 16);
    SymbolValue(b % 16 * 4 + c / 64);
    SymbolValue(c % 64);
  }

  /** The text holds the bits of the bytes, in their order, six at a time and in as few symbols as that takes. */
  lemma {:induction false} EncodedBits(s: Bytes, k: nat)
    requires 3 * k < |s|
    ensures |Encode(s)| == (4 * |s| + 2) / 3 && SameBits(s, Encode(s), k)
  {
    hide EncodeGroup, ValueOf;
    if |s| <= 3 {
      EncodedGroupBits(s);
    } else {
      var g, rest := s[..3], s[3..];
      EncodedGroupBits(g);
      EncodedBits(rest, if k == 0 then 0 else k - 1);
      var e := Encode(s);
      assert e == EncodeGroup(g) + Encode(rest) && |EncodeGroup(g)| == 4;
      if k == 0 {
        assert forall i :: 0 <= i < 3 ==> ByteAt(s, i) == ByteAt(g, i);
        assert forall i :: 0 <= i < 4 ==> BitsAt(e, i) == BitsAt(EncodeGroup(g), i);
      } else {
        assert forall i :: 3 <= i ==> ByteAt(s, i) == ByteAt(rest, i - 3);
        assert forall i :: 4 <= i ==> BitsAt(e, i) == BitsAt(Encode(rest), i - 4);
      }
    }
  }
}
