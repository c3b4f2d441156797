/** UTF-8 as defined by sections 3 and 4 of RFC 3629. */
module Utf8 {
  import opened ByteStrings

  predicate Continues(s: Bytes, i: nat, low: int, high: int) {
    i < |s| && low <= s[i] <= high
  }

  /** The length of the well-formed rune that begins s, or 0. */
  function RuneLength(s: Bytes): (n: nat)
    ensures n <= 4 && n <= |s|
  {
    if s == [] then 0
    else if s[0] < 0x80 then 1
    else if 0xC2 <= s[0] <= 0xDF then if Continues(s, 1, 0x80, 0xBF) then 2 else 0
    else if 0xE0 <= s[0] <= 0xEF then
      var low := if s[0] == 0xE0 then 0xA0 else 0x80;
      var high := if s[0] == 0xED then 0x9F else 0xBF;
      if Continues(s, 1, low, high) && Continues(s, 2, 0x80, 0xBF) then 3 else 0
    else if 0xF0 <= s[0] <= 0xF4 then
      var low := if s[0] == 0xF0 then 0x90 else 0x80;
      var high := if s[0] == 0xF4 then 0x8F else 0xBF;
      if Continues(s, 1, low, high) && Continues(s, 2, 0x80, 0xBF) && Continues(s, 3, 0x80, 0xBF) then 4 else 0
    else 0
  }

  predicate Valid(s: Bytes) {
    s == [] || (RuneLength(s) > 0 && Valid(s[RuneLength(s)..]))
  }

  // ---------- runes ----------

  predicate IsRune(r: int) { 0 <= r < 0xD800 || 0xE000 <= r < 0x110000 }

  /** Unicode general category Cc. */
  predicate IsControl(r: int) { 0 <= r < 0x20 || 0x7F <= r < 0xA0 }

  /** The code point of the rune that begins s. */
  function RuneValue(s: Bytes): int
    requires RuneLength(s) > 0
  {
    match RuneLength(s)
    case 1 => s[0]
    case 2 => (s[0] as int - 0xC0) * 0x40 + (s[1] as int - 0x80)
    case 3 => (s[0] as int - 0xE0) * 0x1000 + (s[1] as int - 0x80) * 0x40 + (s[2] as int - 0x80)
    case _ =>
      (s[0] as int - 0xF0) * 0x40000 + (s[1] as int - 0x80) * 0x1000 + (s[2] as int - 0x80) * 0x40 + (s[3] as int - 0x80)
  }

  function Encode(r: int): Bytes
    requires IsRune(r)
  {
    if r < 0x80 then [r]
    else if r < 0x800 then [0xC0 + r / 0x40, 0x80 + r % 0x40]
    else if r < 0x10000 then [0xE0 + r / 0x1000, 0x80 + r / 0x40 % 0x40, 0x80 + r % 0x40]
    else [0xF0 + r / 0x40000, 0x80 + r / 0x1000 % 0x40, 0x80 + r / 0x40 % 0x40, 0x80 + r % 0x40]
  }

  lemma EncodeTwo(a: int, b: int)
    requires 2 <= a < 0x20 && 0 <= b < 0x40
    ensures IsRune(a * 0x40 + b) && Encode(a * 0x40 + b) == [0xC0 + a, 0x80 + b]
  {
  }

  lemma EncodeThree(a: int, b: int, c: int)
    requires 0 <= a < 0x10 && 0 <= b < 0x40 && 0 <= c < 0x40
    requires (a == 0 ==> 0x20 <= b) && (a == 0xD ==> b < 0x20)
    ensures var r := a * 0x1000 + b * 0x40 + c; IsRune(r) && Encode(r) == [0xE0 + a, 0x80 + b, 0x80 + c]
  {
    Digits3(a, b, c);
  }

  lemma EncodeFour(a: int, b: int, c: int, d: int)
    requires 0 <= a < 5 && 0 <= b < 0x40 && 0 <= c < 0x40 && 0 <= d < 0x40
    requires (a == 0 ==> 0x10 <= b) && (a == 4 ==> b < 0x10)
    ensures var r := a * 0x40000 + b * 0x1000 + c * 0x40 + d;
            IsRune(r) && Encode(r) == [0xF0 + a, 0x80 + b, 0x80 + c, 0x80 + d]
  {
    Digits4(a, b, c, d);
  }

  lemma Digits3(a: int, b: int, c: int)
    requires 0 <= a && 0 <= b < 0x40 && 0 <= c < 0x40
    ensures var r := a * 0x1000 + b * 0x40 + c; r / 0x1000 == a && r / 0x40 % 0x40 == b && r % 0x40 == c
  {
    assert (a * 0x1000 + b * 0x40 + c) / 0x40 == a * 0x40 + b;
  }

  lemma Digits4(a: int, b: int, c: int, d: int)
    requires 0 <= a && 0 <= b < 0x40 && 0 <= c < 0x40 && 0 <= d < 0x40
    ensures var r := a * 0x40000 + b * 0x1000 + c * 0x40 + d;
            r / 0x40000 == a && r / 0x1000 % 0x40 == b && r / 0x40 % 0x40 == c && r % 0x40 == d
  {
    var r := a * 0x40000 + b * 0x1000 + c * 0x40 + d;
    assert r / 0x40 == a * 0x1000 + b * 0x40 + c;
    assert r / 0x1000 == a * 0x40 + b;
    Digits3(a, b, c);
  }

  /** Each rune has one encoding, so that decoding and encoding again changes nothing. */
  lemma EncodeDecoded(s: Bytes)
    requires RuneLength(s) > 0
    ensures IsRune(RuneValue(s)) && Encode(RuneValue(s)) == s[..RuneLength(s)]
  {
    hide Encode;
    var n := RuneLength(s);
    if n == 1 {
      EncodeOne(s[0]);
      assert s[..1] == [s[0]];
    } else if n == 2 {
      EncodeTwo(s[0] as int - 0xC0, s[1] as int - 0x80);
      assert s[..2] == [s[0], s[1]];
    } else if n == 3 {
      EncodeThree(s[0] as int - 0xE0, s[1] as int - 0x80, s[2] as int - 0x80);
      assert s[..3] == [s[0], s[1], s[2]];
    } else {
      EncodeFour(s[0] as int - 0xF0, s[1] as int - 0x80, s[2] as int - 0x80, s[3] as int - 0x80);
      assert s[..4] == [s[0], s[1], s[2], s[3]];
    }
  }

  lemma EncodeOne(b: Byte)
    requires b < 0x80
    ensures Encode(b) == [b]
  {
  }

  lemma DecodeThree(r: int, s: Bytes)
    requires IsRune(r) && 0x800 <= r < 0x10000
    ensures RuneLength(Encode(r) + s) == 3 && RuneValue(Encode(r) + s) == r
  {
    var a, b, c := r / 0x1000, r / 0x40 % 0x40, r % 0x40;
    assert r == a * 0x1000 + b * 0x40 + c;
    assert Encode(r) + s == [0xE0 + a, 0x80 + b, 0x80 + c] + s;
  }

  lemma DecodeFour(r: int, s: Bytes)
    requires IsRune(r) && 0x10000 <= r
    ensures RuneLength(Encode(r) + s) == 4 && RuneValue(Encode(r) + s) == r
  {
    var a, b, c, d := r / 0x40000, r / 0x1000 % 0x40, r / 0x40 % 0x40, r % 0x40;
    assert r / 0x40 / 0x40 == r / 0x1000 && r / 0x1000 / 0x40 == a;
    assert r == a * 0x40000 + b * 0x1000 + c * 0x40 + d;
    assert Encode(r) + s == [0xF0 + a, 0x80 + b, 0x80 + c, 0x80 + d] + s;
  }

  /** Every rune is read back from its encoding, whatever follows. */
  lemma DecodeEncoded(r: int, s: Bytes)
    requires IsRune(r)
    ensures RuneLength(Encode(r) + s) == |Encode(r)| && RuneValue(Encode(r) + s) == r
  {
    if 0x10000 <= r {
      DecodeFour(r, s);
    } else if 0x800 <= r {
      DecodeThree(r, s);
    }
  }

  /** A rune begins s exactly when the encoding of some rune does; that is the rune read. */
  lemma RuneBegins(s: Bytes, r: int)
    requires IsRune(r)
    ensures Encode(r) <= s <==> RuneLength(s) > 0 && RuneValue(s) == r
  {
    hide Encode, RuneLength, RuneValue;
    if Encode(r) <= s {
      DecodeEncoded(r, s[|Encode(r)|..]);
      assert s == Encode(r) + s[|Encode(r)|..];
      EncodeNotEmpty(r);
    }
    if RuneLength(s) > 0 && RuneValue(s) == r {
      EncodeDecoded(s);
    }
  }

  lemma EncodeNotEmpty(r: int)
    requires IsRune(r)
    ensures Encode(r) != []
  {
  }

  // ---------- texts ----------

  predicate AllRunes(runes: seq<int>) { forall i :: 0 <= i < |runes| ==> IsRune(runes[i]) }

  /** The encodings of runes, one after the other. */
  function EncodeAll(runes: seq<int>): Bytes
    requires AllRunes(runes)
  {
    if runes == [] then [] else Encode(runes[0]) + EncodeAll(runes[1..])
  }

  lemma {:induction false} EncodedIsValid(runes: seq<int>)
    requires AllRunes(runes)
    ensures Valid(EncodeAll(runes))
  {
    hide Encode, RuneLength, RuneValue;
    if runes != [] {
      EncodedIsValid(runes[1..]);
      DecodeEncoded(runes[0], EncodeAll(runes[1..]));
      EncodeNotEmpty(runes[0]);
    }
  }

  /** Valid texts are the encodings of runes and nothing else. */
  lemma {:induction false} ValidIsEncoded(s: Bytes) returns (runes: seq<int>)
    requires Valid(s)
    ensures AllRunes(runes) && EncodeAll(runes) == s
  {
    hide Encode, RuneLength, RuneValue;
    if s == [] {
      runes := [];
    } else {
      var n := RuneLength(s);
      var rest := ValidIsEncoded(s[n..]);
      EncodeDecoded(s);
      runes := [RuneValue(s)] + rest;
      assert runes[1..] == rest;
      assert s[..n] + s[n..] == s;
    }
  }

  // ---------- boundaries ----------

  predicate IsContinuation(b: Byte) { 0x80 <= b < 0xC0 }

  /** Between two runes, as far as the next byte tells. */
  predicate Boundary(s: Bytes, i: nat) {
    i == |s| || (i < |s| && !IsContinuation(s[i]))
  }

  /** A rune is determined by its own bytes; only its first byte is no continuation. */
  lemma RuneBytes(s: Bytes)
    requires RuneLength(s) > 0
    ensures !IsContinuation(s[0])
    ensures forall i :: 0 < i < RuneLength(s) ==> IsContinuation(s[i])
  {
  }

  lemma RuneLocal(s: Bytes, t: Bytes)
    requires RuneLength(s) > 0 && RuneLength(s) <= |t| && t[..RuneLength(s)] == s[..RuneLength(s)]
    ensures RuneLength(t) == RuneLength(s)
  {
    var n := RuneLength(s);
    assert forall i :: 0 <= i < n ==> s[..n][i] == s[i] && t[..n][i] == t[i];
  }

  lemma RuneJoin(s: Bytes, t: Bytes)
    requires RuneLength(s) > 0
    ensures RuneLength(s + t) == RuneLength(s)
  {
    hide RuneLength;
    assert (s + t)[..RuneLength(s)] == s[..RuneLength(s)];
    RuneLocal(s, s + t);
  }

  lemma RuneCut(s: Bytes, n: nat)
    requires 0 < RuneLength(s) <= n <= |s|
    ensures RuneLength(s[..n]) == RuneLength(s)
  {
    hide RuneLength;
    assert s[..n][..RuneLength(s)] == s[..RuneLength(s)];
    RuneLocal(s, s[..n]);
  }
}
