/** Encoding a submitted value, and what the upstream parser is asked about it. */
module DotenvEncoding {
  import opened ByteStrings
  import opened DotenvSyntax
  import opened DotenvEdit

  /** The name under which an encoded value is parsed back. */
  const NAME: Bytes := Ascii("ACMEMUX_VALUE")
  const PROBE: Bytes := NAME + [EQUALS]

  type Parser = Bytes -> Option<map<Bytes, Bytes>>

  /** A quoted value is parsed only when the scanner's rule finds its closing quote. */
  ghost predicate ClosesQuotes(parse: Parser) {
    forall e: Bytes :: e != [] && IsQuote(e[0]) && parse(PROBE + e).Some? ==> CloseAt(e, e[0], 1) < |e|
  }

  /** The upstream dotenv parser, which this model knows only by that. */
  type Upstream = parse: Parser | ClosesQuotes(parse) witness FileRules

  function Unescaped(b: Byte): Byte {
    if b == 110 then LF else if b == 114 then CR else b
  }

  /** The reading of double quotes that undoes Escape. */
  function Unescape(s: Bytes): Bytes {
    if s == [] then []
    else if s[0] == BACKSLASH && |s| > 1 then [Unescaped(s[1])] + Unescape(s[2..])
    else [s[0]] + Unescape(s[1..])
  }

  /** A parser that follows the quoting rules of the file: a value is all between its quotes. */
  function FileRules(text: Bytes): Option<map<Bytes, Bytes>> {
    if !(PROBE <= text) then None
    else
      var e := text[|PROBE|..];
      if e == [] || !IsQuote(e[0]) || CloseAt(e, e[0], 1) != |e| - 1 then None
      else
        var inner := e[1..|e| - 1];
        Some(map[NAME := if e[0] == SINGLE_QUOTE then inner else Unescape(inner)])
  }

  predicate RoundTrips(upstream: Upstream, value: Bytes, encoded: Bytes) {
    var parsed := upstream(PROBE + encoded);
    parsed.Some? && NAME in parsed.value && parsed.value[NAME] == value
  }

  /** Literal single quotes where they parse back, double quotes where those do, or nothing. */
  function Encoding(upstream: Upstream, value: Bytes): (e: Option<Bytes>)
    ensures e.Some? ==> RoundTrips(upstream, value, e.value)
  {
    if SINGLE_QUOTE !in value && RoundTrips(upstream, value, SingleQuoted(value)) then Some(SingleQuoted(value))
    else if RoundTrips(upstream, value, DoubleQuoted(value)) then Some(DoubleQuoted(value))
    else None
  }

  method EscapeValue(value: Bytes) returns (result: Bytes)
    ensures result == DoubleQuoted(value)
  {
    result := [DOUBLE_QUOTE];
    for i := 0 to |value|
      invariant result == [DOUBLE_QUOTE] + Escape(value[..i])
    {
      assert value[..i + 1][..i] == value[..i];
      var b := value[i];
      ghost var before := result;
      if b == BACKSLASH || b == DOUBLE_QUOTE || b == DOLLAR {
        result := result + [BACKSLASH, b];
      } else if b == LF {
        result := result + [BACKSLASH, 110];
      } else if b == CR {
        result := result + [BACKSLASH, 114];
      } else {
        result := result + [b];
      }
      assert result == before + EscapeByte(b);
    }
    assert value[..|value|] == value;
    result := result + [DOUBLE_QUOTE];
  }

  method EncodeValue(upstream: Upstream, value: Bytes) returns (encoded: Option<Bytes>)
    ensures encoded == Encoding(upstream, value)
  {
    hide RoundTrips;
    if SINGLE_QUOTE !in value {
      var literal := [SINGLE_QUOTE] + value + [SINGLE_QUOTE];
      if RoundTrips(upstream, value, literal) {
        return Some(literal);
      }
    }
    var result := EscapeValue(value);
    if RoundTrips(upstream, value, result) {
      return Some(result);
    }
    return None;
  }

  /** Every accepted encoding is one the scanner closes at its last byte, with no expansion in it. */
  lemma EncodingIsClosed(upstream: Upstream, value: Bytes)
    requires Encoding(upstream, value).Some?
    ensures Closed(Encoding(upstream, value).value)
  {
    hide Closed, Escape;
    var e := Encoding(upstream, value).value;
    assert upstream(PROBE + e).Some?;
    assert ClosesQuotes(upstream);
    assert IsQuote(e[0]);
    assert CloseAt(e, e[0], 1) < |e|;
    EncodedClosesLast(value, e);
  }

  // ---------- the rules of the file ----------

  lemma {:induction false} UnescapeEscape(v: Bytes, rest: Bytes)
    ensures Unescape(Escape(v) + rest) == v + Unescape(rest)
  {
    if v == [] {
      assert Escape(v) + rest == rest && v + Unescape(rest) == Unescape(rest);
    } else {
      hide Unescape, EscapeByte;
      var init, b := v[..|v| - 1], v[|v| - 1];
      UnescapeEscape(init, EscapeByte(b) + rest);
      UnescapeByte(b, rest);
      Reassociate(Escape(init), EscapeByte(b), rest);
      Reassociate(init, [b], Unescape(rest));
      assert init + [b] == v;
    }
  }

  lemma Reassociate(a: Bytes, b: Bytes, c: Bytes)
    ensures (a + b) + c == a + (b + c)
  {
  }

  lemma UnescapeByte(b: Byte, rest: Bytes)
    ensures Unescape(EscapeByte(b) + rest) == [b] + Unescape(rest)
  {
    var s := EscapeByte(b) + rest;
    assert s[|EscapeByte(b)|..] == rest;
  }

  predicate EndsWithBackslash(v: Bytes) { v != [] && v[|v| - 1] == BACKSLASH }

  lemma EscapeEnds(v: Bytes)
    ensures EndsWithBackslash(Escape(v)) <==> EndsWithBackslash(v)
  {
  }

  /** The closing quote is found exactly when no backslash stands in front of it. */
  lemma QuotedCloses(q: Byte, inner: Bytes)
    requires forall i :: 0 <= i < |inner| && inner[i] == q ==> i > 0 && inner[i - 1] == BACKSLASH
    requires IsQuote(q)
    ensures var e := [q] + inner + [q];
            CloseAt(e, q, 1) == if EndsWithBackslash(inner) then |e| else |e| - 1
  {
    var e := [q] + inner + [q];
    forall i | 1 <= i < |e| - 1 ensures e[i] == inner[i - 1] {}
    CloseAtIs(e, q, if EndsWithBackslash(inner) then |e| else |e| - 1);
  }

  lemma FileRulesRead(q: Byte, inner: Bytes)
    requires forall i :: 0 <= i < |inner| && inner[i] == q ==> i > 0 && inner[i - 1] == BACKSLASH
    requires IsQuote(q)
    ensures FileRules(PROBE + ([q] + inner + [q]))
         == if EndsWithBackslash(inner) then None
            else Some(map[NAME := if q == SINGLE_QUOTE then inner else Unescape(inner)])
  {
    var e := [q] + inner + [q];
    assert (PROBE + e)[|PROBE|..] == e;
    assert e[1..|e| - 1] == inner;
    QuotedCloses(q, inner);
    hide CloseAt, Unescape;
  }

  /** By the rules of the file, exactly the values that do not end with a backslash can be written. */
  lemma FileRulesEncode(value: Bytes)
    ensures Encoding(FileRules, value).Some? <==> !EndsWithBackslash(value)
  {
    hide FileRules;
    if SINGLE_QUOTE !in value {
      FileRulesRead(SINGLE_QUOTE, value);
    }
    EscapeIsSafe(value);
    FileRulesRead(DOUBLE_QUOTE, Escape(value));
    EscapeEnds(value);
    UnescapeEscape(value, []);
    assert Escape(value) + [] == Escape(value) && value + [] == value;
  }

  /** Which bytes are escaped, and as what. */
  lemma EscapedAs(b: Byte)
    ensures EscapeByte(BACKSLASH) == Ascii("\\\\") && EscapeByte(DOUBLE_QUOTE) == Ascii("\\\"") && EscapeByte(DOLLAR) == Ascii("\\$")
    ensures EscapeByte(LF) == Ascii("\\n") && EscapeByte(CR) == Ascii("\\r")
    ensures b !in {BACKSLASH, DOUBLE_QUOTE, DOLLAR, LF, CR} ==> EscapeByte(b) == [b]
  {
  }

  /**
   A value without single quotes is written literally between them whenever that reads back; any other value, escaped
   between double quotes when that does; and otherwise it is refused.
   */
  lemma EncodingChooses(upstream: Upstream, value: Bytes)
    ensures var literal, escaped := Ascii("'") + value + Ascii("'"), Ascii("\"") + Escape(value) + Ascii("\"");
            && (Encoding(upstream, value) == Some(literal) <==> SINGLE_QUOTE !in value && RoundTrips(upstream, value, literal))
            && (Encoding(upstream, value) == Some(escaped) <==>
                  !(SINGLE_QUOTE !in value && RoundTrips(upstream, value, literal)) && RoundTrips(upstream, value, escaped))
            && (Encoding(upstream, value).None? <==>
                  !(SINGLE_QUOTE !in value && RoundTrips(upstream, value, literal)) && !RoundTrips(upstream, value, escaped))
  {
    hide RoundTrips, Escape;
    assert Ascii("'") == [SINGLE_QUOTE] && Ascii("\"") == [DOUBLE_QUOTE];
    var literal, escaped := Ascii("'") + value + Ascii("'"), Ascii("\"") + Escape(value) + Ascii("\"");
    assert literal == SingleQuoted(value) && escaped == DoubleQuoted(value);
    assert literal[0] == SINGLE_QUOTE && escaped[0] == DOUBLE_QUOTE;
  }
}
