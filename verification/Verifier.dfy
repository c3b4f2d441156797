/** The stored password verifier: printing and parsing it. */
module Verifier {
  import opened ByteStrings
  import opened Splitting
  import Base64
  import Decimal

  const DOLLAR: Byte := 36
  const COMMA: Byte := 44
  const MAXIMUM_VERIFIER_BYTES := 1024
  const VERSION := 19
  const NAME: Bytes := Ascii("argon2id")
  const VERSION_PREFIX: Bytes := Ascii("v=")
  const MEMORY_PREFIX: Bytes := Ascii("m=")
  const ITERATIONS_PREFIX: Bytes := Ascii("t=")
  const PARALLELISM_PREFIX: Bytes := Ascii("p=")

  datatype Parameters = Parameters(memory: nat, iterations: nat, parallelism: nat, saltLength: nat, keyLength: nat)

  predicate Accepted(p: Parameters) {
    && 8 * 1024 <= p.memory <= 256 * 1024 && 1 <= p.iterations <= 10 && 1 <= p.parallelism <= 16
    && 16 <= p.saltLength <= 64 && 16 <= p.keyLength <= 64
  }

  datatype Parsed = Parsed(parameters: Parameters, salt: Bytes, hash: Bytes)

  // ---------- printing and parsing ----------

  function ParameterParts(p: Parameters): seq<Bytes> {
    [MEMORY_PREFIX + Decimal.Print(p.memory), ITERATIONS_PREFIX + Decimal.Print(p.iterations),
     PARALLELISM_PREFIX + Decimal.Print(p.parallelism)]
  }

  function Parts(p: Parameters, salt: Bytes, hash: Bytes): seq<Bytes> {
    [[], NAME, VERSION_PREFIX + Decimal.Print(VERSION), Join(ParameterParts(p), COMMA), Base64.Encode(salt),
     Base64.Encode(hash)]
  }

  function Format(p: Parameters, salt: Bytes, hash: Bytes): Bytes { Join(Parts(p, salt, hash), DOLLAR) }

  /** An unsigned numeral behind its prefix, without leading zeros and below the limit. */
  function ParseInteger(value: Bytes, prefix: Bytes, limit: nat): Option<nat> {
    if !(prefix <= value) || |value| == |prefix| then None
    else
      var raw := value[|prefix|..];
      if (raw[0] == 48 && |raw| > 1) || !Decimal.AllDigits(raw) || Decimal.ValueOf(raw) >= limit then None
      else Some(Decimal.ValueOf(raw))
  }

  function Parse(encoded: Bytes): Option<Parsed> {
    if encoded == [] || |encoded| > MAXIMUM_VERIFIER_BYTES then None
    else
      var parts := Split(encoded, DOLLAR);
      if |parts| != 6 || parts[0] != [] || parts[1] != NAME || parts[2] != VERSION_PREFIX + Decimal.Print(VERSION)
      then None
      else ParseParts(Split(parts[3], COMMA), parts[4], parts[5])
  }

  function ParseParts(parameters: seq<Bytes>, salt: Bytes, hash: Bytes): Option<Parsed> {
    if |parameters| != 3 then None
    else
      var memory := ParseInteger(parameters[0], MEMORY_PREFIX, 0x1_0000_0000);
      var iterations := ParseInteger(parameters[1], ITERATIONS_PREFIX, 0x1_0000_0000);
      var parallelism := ParseInteger(parameters[2], PARALLELISM_PREFIX, 256);
      var s, h := Base64.Decode(salt), Base64.Decode(hash);
      if memory.None? || iterations.None? || parallelism.None? || s.None? || h.None? then None
      else
        var p := Parameters(memory.value, iterations.value, parallelism.value, |s.value|, |h.value|);
        if Accepted(p) then Some(Parsed(p, s.value, h.value)) else None
  }

  // ---------- round trips ----------

  lemma ParsePrinted(prefix: Bytes, n: nat, limit: nat)
    requires n < limit
    ensures ParseInteger(prefix + Decimal.Print(n), prefix, limit) == Some(n)
  {
    hide Decimal.Print, Decimal.ValueOf;
    Decimal.PrintValue(n);
    assert (prefix + Decimal.Print(n))[|prefix|..] == Decimal.Print(n);
  }

  lemma PrintParsed(value: Bytes, prefix: Bytes, limit: nat)
    requires ParseInteger(value, prefix, limit).Some?
    ensures prefix + Decimal.Print(ParseInteger(value, prefix, limit).value) == value
  {
    hide Decimal.Print, Decimal.ValueOf;
    var raw := value[|prefix|..];
    Decimal.ValuePrint(raw);
    assert prefix + raw == value;
  }

  lemma PrintedFree(prefix: Bytes, n: nat)
    requires Free(prefix, DOLLAR) && Free(prefix, COMMA)
    ensures Free(prefix + Decimal.Print(n), DOLLAR) && Free(prefix + Decimal.Print(n), COMMA)
  {
    hide Decimal.Print;
    var s := prefix + Decimal.Print(n);
    assert Decimal.AllDigits(Decimal.Print(n));
  }

  lemma EncodedFree(s: Bytes)
    ensures Free(Base64.Encode(s), DOLLAR)
  {
    hide Base64.Encode;
    Base64.EncodedSymbols(s);
  }

  lemma PrefixesFree()
    ensures Free(NAME, DOLLAR) && Free(VERSION_PREFIX, DOLLAR) && Free(VERSION_PREFIX, COMMA)
    ensures Free(MEMORY_PREFIX, DOLLAR) && Free(MEMORY_PREFIX, COMMA)
    ensures Free(ITERATIONS_PREFIX, DOLLAR) && Free(ITERATIONS_PREFIX, COMMA)
    ensures Free(PARALLELISM_PREFIX, DOLLAR) && Free(PARALLELISM_PREFIX, COMMA)
  {
  }

  lemma {:induction false} JoinFree(parts: seq<Bytes>, sep: Byte, other: Byte)
    requires sep != other && forall i :: 0 <= i < |parts| ==> Free(parts[i], other)
    ensures Free(Join(parts, sep), other)
  {
    if |parts| > 1 {
      JoinFree(parts[..|parts| - 1], sep, other);
    }
  }

  lemma ParametersFree(p: Parameters)
    ensures forall i :: 0 <= i < 3 ==> Free(ParameterParts(p)[i], COMMA) && Free(ParameterParts(p)[i], DOLLAR)
  {
    PrefixesFree();
    hide Free, Ascii, Decimal.Print;
    PrintedFree(MEMORY_PREFIX, p.memory);
    PrintedFree(ITERATIONS_PREFIX, p.iterations);
    PrintedFree(PARALLELISM_PREFIX, p.parallelism);
  }

  lemma PartsFree(p: Parameters, salt: Bytes, hash: Bytes)
    ensures forall i :: 0 <= i < 6 ==> Free(Parts(p, salt, hash)[i], DOLLAR)
  {
    PrefixesFree();
    ParametersFree(p);
    assert Free([], DOLLAR);
    hide Free, Ascii, Decimal.Print, ParameterParts, Join, Base64.Encode;
    PrintedFree(VERSION_PREFIX, VERSION);
    JoinFree(ParameterParts(p), COMMA, DOLLAR);
    EncodedFree(salt);
    EncodedFree(hash);
  }

  /** What is printed is parsed back, for all accepted parameters and lengths that match them. */
  lemma ParseFormatted(p: Parameters, salt: Bytes, hash: Bytes)
    requires Accepted(p) && |salt| == p.saltLength && |hash| == p.keyLength
    ensures Parse(Format(p, salt, hash)) == Some(Parsed(p, salt, hash))
  {
    hide Split, Join, Free, Ascii, Decimal.Print, Base64.Encode, Base64.Decode, ParseInteger;
    PartsFree(p, salt, hash);
    SplitJoin(Parts(p, salt, hash), DOLLAR);
    ParametersFree(p);
    SplitJoin(ParameterParts(p), COMMA);
    ParsePrinted(MEMORY_PREFIX, p.memory, 0x1_0000_0000);
    ParsePrinted(ITERATIONS_PREFIX, p.iterations, 0x1_0000_0000);
    ParsePrinted(PARALLELISM_PREFIX, p.parallelism, 256);
    Base64.DecodeEncoded(salt);
    Base64.DecodeEncoded(hash);
    FormatLength(p, salt, hash);
  }

  lemma {:induction false} EncodeLength(s: Bytes)
    ensures |Base64.Encode(s)| <= 2 * |s|
  {
    hide Base64.EncodeGroup;
    if s != [] {
      if |s| <= 3 {
        Base64.EncodedGroup(s);
      } else {
        Base64.EncodedGroup(s[..3]);
        EncodeLength(s[3..]);
      }
    }
  }

  lemma {:induction false} PrintLength(n: nat, k: nat)
    requires 0 < k && n < 10 * Ten(k - 1)
    ensures |Decimal.Print(n)| <= k
  {
    if n >= 10 {
      PrintLength(n / 10, k - 1);
    }
  }

  function Ten(k: nat): nat { if k == 0 then 1 else 10 * Ten(k - 1) }

  lemma FormatLength(p: Parameters, salt: Bytes, hash: Bytes)
    requires Accepted(p) && |salt| == p.saltLength && |hash| == p.keyLength
    ensures 0 < |Format(p, salt, hash)| < MAXIMUM_VERIFIER_BYTES
  {
    EncodeLength(salt);
    EncodeLength(hash);
    assert Ten(5) == 100000;
    PrintLength(p.memory, 6);
    PrintLength(p.iterations, 6);
    PrintLength(p.parallelism, 6);
    PrintLength(VERSION, 6);
    assert |NAME| == 8 && |VERSION_PREFIX| == |MEMORY_PREFIX| == |ITERATIONS_PREFIX| == |PARALLELISM_PREFIX| == 2;
    hide Ten, Decimal.Print, Base64.Encode, Ascii;
    var q := ParameterParts(p);
    assert q[..2][..1] == q[..1];
    assert |Join(q[..2], COMMA)| == |q[0]| + |q[1]| + 1;
    var parts := Parts(p, salt, hash);
    FormatParts(parts);
  }

  lemma FormatParts(parts: seq<Bytes>)
    requires |parts| == 6
    ensures |Join(parts, DOLLAR)| == |parts[0]| + |parts[1]| + |parts[2]| + |parts[3]| + |parts[4]| + |parts[5]| + 5
  {
    assert parts[..5][..4] == parts[..4] && parts[..4][..3] == parts[..3] && parts[..3][..2] == parts[..2];
    assert parts[..2][..1] == parts[..1];
    assert |Join(parts[..2], DOLLAR)| == |parts[0]| + |parts[1]| + 1;
    assert |Join(parts[..3], DOLLAR)| == |Join(parts[..2], DOLLAR)| + |parts[2]| + 1;
    assert |Join(parts[..4], DOLLAR)| == |Join(parts[..3], DOLLAR)| + |parts[3]| + 1;
    assert |Join(parts[..5], DOLLAR)| == |Join(parts[..4], DOLLAR)| + |parts[4]| + 1;
  }

  lemma BreakFree(encoded: Bytes)
    requires Parse(encoded).Some? && Base64.NoBreaks(encoded)
    ensures var v := Parse(encoded).value; Format(v.parameters, v.salt, v.hash) == encoded
  {
    hide Split, Join, Ascii, Decimal.Print, Base64.Encode, Base64.Decode, ParseInteger, Accepted;
    var parts := Split(encoded, DOLLAR);
    var q := Split(parts[3], COMMA);
    JoinSplit(encoded, DOLLAR);
    JoinSplit(parts[3], COMMA);
    PrintParsed(q[0], MEMORY_PREFIX, 0x1_0000_0000);
    PrintParsed(q[1], ITERATIONS_PREFIX, 0x1_0000_0000);
    PrintParsed(q[2], PARALLELISM_PREFIX, 256);
    PartNoBreaks(encoded, DOLLAR, 4);
    PartNoBreaks(encoded, DOLLAR, 5);
    ReEncode(parts[4]);
    ReEncode(parts[5]);
    var v := Parse(encoded).value;
    assert q == ParameterParts(v.parameters);
    assert parts == Parts(v.parameters, v.salt, v.hash);
  }

  lemma ReEncode(s: Bytes)
    requires Base64.NoBreaks(s) && Base64.Decode(s).Some?
    ensures Base64.Encode(Base64.Decode(s).value) == s
  {
    Base64.NothingToSkip(s);
    Base64.EncodeDecoded(s);
  }

  lemma {:induction false} PartNoBreaks(s: Bytes, sep: Byte, i: nat)
    requires Base64.NoBreaks(s) && i < |Split(s, sep)|
    ensures Base64.NoBreaks(Split(s, sep)[i])
  {
    if s != [] {
      var init := s[..|s| - 1];
      if i < |Split(init, sep)| {
        PartNoBreaks(init, sep, i);
      }
    }
  }

  predicate IsLineBreak(b: Byte) { b == 10 || b == 13 }

  lemma PrintedUnbroken(prefix: Bytes, n: nat, b: Byte)
    requires Free(prefix, b) && IsLineBreak(b)
    ensures Free(prefix + Decimal.Print(n), b)
  {
    hide Decimal.Print;
    assert Decimal.AllDigits(Decimal.Print(n));
  }

  lemma PrefixesUnbroken(b: Byte)
    requires IsLineBreak(b)
    ensures Free(NAME, b) && Free(VERSION_PREFIX, b) && Free([], b)
    ensures Free(MEMORY_PREFIX, b) && Free(ITERATIONS_PREFIX, b) && Free(PARALLELISM_PREFIX, b)
  {
  }

  lemma EncodedUnbroken(s: Bytes, b: Byte)
    requires IsLineBreak(b)
    ensures Free(Base64.Encode(s), b)
  {
    hide Base64.Encode;
    Base64.EncodedSymbols(s);
  }

  /** What is printed has no line break. */
  lemma FormatUnbroken(p: Parameters, salt: Bytes, hash: Bytes, b: Byte)
    requires IsLineBreak(b)
    ensures Free(Format(p, salt, hash), b)
  {
    PrefixesUnbroken(b);
    hide Free, Ascii, Decimal.Print, Join, Base64.Encode;
    PrintedUnbroken(MEMORY_PREFIX, p.memory, b);
    PrintedUnbroken(ITERATIONS_PREFIX, p.iterations, b);
    PrintedUnbroken(PARALLELISM_PREFIX, p.parallelism, b);
    PrintedUnbroken(VERSION_PREFIX, VERSION, b);
    JoinFree(ParameterParts(p), COMMA, b);
    EncodedUnbroken(salt, b);
    EncodedUnbroken(hash, b);
    JoinFree(Parts(p, salt, hash), DOLLAR, b);
  }

  /** An accepted text is the one that its parameters, salt and hash print exactly when it has no line break. */
  lemma FormatParsed(encoded: Bytes)
    requires Parse(encoded).Some?
    ensures var v := Parse(encoded).value; Format(v.parameters, v.salt, v.hash) == encoded <==> Base64.NoBreaks(encoded)
  {
    hide Format, Parse;
    var v := Parse(encoded).value;
    FormatUnbroken(v.parameters, v.salt, v.hash, 10);
    FormatUnbroken(v.parameters, v.salt, v.hash, 13);
    if Base64.NoBreaks(encoded) {
      BreakFree(encoded);
    }
  }

  /** A line break inside the salt is accepted and then lost. */
  lemma BreakIsLost(salt: Bytes)
    ensures Base64.Decode(Base64.Encode(salt) + [10]) == Some(salt)
  {
    hide Base64.Encode, Base64.DecodeSymbols;
    Base64.DecodeEncoded(salt);
    var e := Base64.Encode(salt);
    assert (e + [10])[..|e|] == e;
    assert Base64.WithoutBreaks(e + [10]) == Base64.WithoutBreaks(e) + [] == Base64.WithoutBreaks(e);
  }

  function Broken(p: Parameters, salt: Bytes, hash: Bytes): seq<Bytes> {
    Parts(p, salt, hash)[4 := Base64.Encode(salt) + [10]]
  }

  lemma BrokenFree(p: Parameters, salt: Bytes, hash: Bytes)
    ensures forall i :: 0 <= i < 6 ==> Free(Broken(p, salt, hash)[i], DOLLAR)
  {
    hide Free, Ascii, Decimal.Print, ParameterParts, Join, Base64.Encode;
    PartsFree(p, salt, hash);
    EncodedFree(salt);
    FreeWithBreak(Base64.Encode(salt));
  }

  lemma BrokenLength(p: Parameters, salt: Bytes, hash: Bytes)
    requires Accepted(p) && |salt| == p.saltLength && |hash| == p.keyLength
    ensures |Join(Broken(p, salt, hash), DOLLAR)| == |Format(p, salt, hash)| + 1 <= MAXIMUM_VERIFIER_BYTES
  {
    hide Ascii, Decimal.Print, ParameterParts, Join, Base64.Encode;
    FormatLength(p, salt, hash);
    FormatParts(Broken(p, salt, hash));
    FormatParts(Parts(p, salt, hash));
  }

  /** Every printed text is accepted with a line break behind its salt as well, as the same parameters, salt and hash. */
  lemma BreakIsAccepted(p: Parameters, salt: Bytes, hash: Bytes)
    requires Accepted(p) && |salt| == p.saltLength && |hash| == p.keyLength
    ensures var broken := Join(Broken(p, salt, hash), DOLLAR);
            Parse(broken) == Some(Parsed(p, salt, hash)) && !Base64.NoBreaks(broken) && broken != Format(p, salt, hash)
  {
    hide Split, Join, Free, Ascii, Decimal.Print, Base64.Encode, Base64.Decode, ParseInteger, Format;
    var parts := Broken(p, salt, hash);
    BrokenFree(p, salt, hash);
    SplitJoin(parts, DOLLAR);
    ParametersFree(p);
    SplitJoin(ParameterParts(p), COMMA);
    ParsePrinted(MEMORY_PREFIX, p.memory, 0x1_0000_0000);
    ParsePrinted(ITERATIONS_PREFIX, p.iterations, 0x1_0000_0000);
    ParsePrinted(PARALLELISM_PREFIX, p.parallelism, 256);
    BreakIsLost(salt);
    Base64.DecodeEncoded(hash);
    BrokenLength(p, salt, hash);
    FormatParsed(Join(parts, DOLLAR));
  }

  lemma FreeWithBreak(s: Bytes)
    requires Free(s, DOLLAR)
    ensures Free(s + [10], DOLLAR)
  {
  }

  // ---------- exactly what is accepted ----------

  /** The text in front of the salt. */
  function Preamble(p: Parameters): Bytes {
    Ascii("$argon2id$v=19$m=") + Decimal.Print(p.memory) + Ascii(",t=") + Decimal.Print(p.iterations)
    + Ascii(",p=") + Decimal.Print(p.parallelism) + [DOLLAR]
  }

  lemma VersionPrinted()
    ensures VERSION_PREFIX + Decimal.Print(VERSION) == Ascii("v=19")
  {
    assert Decimal.Print(1) == [49];
    assert Decimal.Print(19) == [49] + [57];
  }

  lemma StartPrinted()
    ensures [DOLLAR] + NAME + [DOLLAR] + Ascii("v=19") + [DOLLAR] + MEMORY_PREFIX == Ascii("$argon2id$v=19$m=")
    ensures [COMMA] + ITERATIONS_PREFIX == Ascii(",t=") && [COMMA] + PARALLELISM_PREFIX == Ascii(",p=")
  {
  }

  lemma JoinedParameters(q: seq<Bytes>)
    requires |q| == 3
    ensures Join(q, COMMA) == q[0] + [COMMA] + q[1] + [COMMA] + q[2]
  {
    assert q[..2][..1] == q[..1];
    assert Join(q[..2], COMMA) == q[0] + [COMMA] + q[1];
  }

  lemma JoinedParts(parts: seq<Bytes>)
    requires |parts| == 6
    ensures Join(parts, DOLLAR)
         == parts[0] + [DOLLAR] + parts[1] + [DOLLAR] + parts[2] + [DOLLAR] + parts[3] + [DOLLAR] + parts[4] + [DOLLAR] + parts[5]
  {
    assert parts[..5][..4] == parts[..4] && parts[..4][..3] == parts[..3] && parts[..3][..2] == parts[..2];
    assert parts[..2][..1] == parts[..1];
    assert Join(parts[..2], DOLLAR) == parts[0] + [DOLLAR] + parts[1];
    assert Join(parts[..3], DOLLAR) == Join(parts[..2], DOLLAR) + [DOLLAR] + parts[2];
    assert Join(parts[..4], DOLLAR) == Join(parts[..3], DOLLAR) + [DOLLAR] + parts[3];
    assert Join(parts[..5], DOLLAR) == Join(parts[..4], DOLLAR) + [DOLLAR] + parts[4];
  }

  /** The parts of a text that holds these texts for salt and hash. */
  function TextParts(p: Parameters, salt: Bytes, hash: Bytes): seq<Bytes> {
    [[], NAME, VERSION_PREFIX + Decimal.Print(VERSION), Join(ParameterParts(p), COMMA), salt, hash]
  }

  /** The text up to the salt, without the dollar behind it. */
  lemma HeadJoined(p: Parameters)
    ensures [] + [DOLLAR] + NAME + [DOLLAR] + Ascii("v=19") + [DOLLAR] + Join(ParameterParts(p), COMMA)
         == Ascii("$argon2id$v=19$m=") + Decimal.Print(p.memory) + Ascii(",t=") + Decimal.Print(p.iterations)
            + Ascii(",p=") + Decimal.Print(p.parallelism)
  {
    StartPrinted();
    hide Join, Ascii, Decimal.Print;
    JoinedParameters(ParameterParts(p));
    var m, t, l := Decimal.Print(p.memory), Decimal.Print(p.iterations), Decimal.Print(p.parallelism);
    Reassociated(MEMORY_PREFIX, m, ITERATIONS_PREFIX, t, PARALLELISM_PREFIX, l);
    Opened(m + Ascii(",t=") + t + Ascii(",p=") + l);
    Flattened(Ascii("$argon2id$v=19$m="), m, Ascii(",t="), t, Ascii(",p="), l);
  }

  lemma Reassociated(a: Bytes, m: Bytes, b: Bytes, t: Bytes, c: Bytes, l: Bytes)
    ensures (a + m) + [COMMA] + (b + t) + [COMMA] + (c + l) == a + (m + ([COMMA] + b) + t + ([COMMA] + c) + l)
  {
  }

  lemma Flattened(a: Bytes, m: Bytes, b: Bytes, t: Bytes, c: Bytes, l: Bytes)
    ensures a + (m + b + t + c + l) == a + m + b + t + c + l
  {
  }

  lemma Opened(middle: Bytes)
    ensures [] + [DOLLAR] + NAME + [DOLLAR] + Ascii("v=19") + [DOLLAR] + (MEMORY_PREFIX + middle)
         == Ascii("$argon2id$v=19$m=") + middle
  {
    StartPrinted();
    hide Ascii;
    var start := [DOLLAR] + NAME + [DOLLAR] + Ascii("v=19") + [DOLLAR];
    assert [] + [DOLLAR] + NAME + [DOLLAR] + Ascii("v=19") + [DOLLAR] == start;
    assert start + (MEMORY_PREFIX + middle) == start + MEMORY_PREFIX + middle;
  }

  lemma TextJoined(p: Parameters, salt: Bytes, hash: Bytes)
    ensures Join(TextParts(p, salt, hash), DOLLAR) == Preamble(p) + salt + [DOLLAR] + hash
  {
    VersionPrinted();
    hide Join, Ascii, Decimal.Print, ParameterParts;
    JoinedParts(TextParts(p, salt, hash));
    HeadJoined(p);
  }

  /** What is printed, in full. */
  lemma FormatIs(p: Parameters, salt: Bytes, hash: Bytes)
    ensures Format(p, salt, hash) == Preamble(p) + Base64.Encode(salt) + [DOLLAR] + Base64.Encode(hash)
  {
    hide Join, Ascii, Preamble, Base64.Encode;
    TextJoined(p, Base64.Encode(salt), Base64.Encode(hash));
  }

  /** The text is that of the value, with line breaks anywhere in its salt and its hash. */
  ghost predicate Stores(encoded: Bytes, v: Parsed) {
    exists salt, hash ::
      && Base64.WithoutBreaks(salt) == Base64.Encode(v.salt) && Base64.WithoutBreaks(hash) == Base64.Encode(v.hash)
      && encoded == Preamble(v.parameters) + salt + [DOLLAR] + hash
  }

  predicate Fitting(v: Parsed) {
    Accepted(v.parameters) && |v.salt| == v.parameters.saltLength && |v.hash| == v.parameters.keyLength
  }

  lemma {:induction false} BreaksAreFree(s: Bytes)
    requires Free(Base64.WithoutBreaks(s), DOLLAR)
    ensures Free(s, DOLLAR)
  {
    if s != [] {
      var init, rest := s[..|s| - 1], Base64.WithoutBreaks(s);
      assert forall i :: 0 <= i < |Base64.WithoutBreaks(init)| ==> Base64.WithoutBreaks(init)[i] == rest[i];
      BreaksAreFree(init);
      assert !Base64.IsBreak(s[|s| - 1]) ==> s[|s| - 1] == rest[|rest| - 1];
    }
  }

  lemma StoredIsParsed(encoded: Bytes, v: Parsed)
    requires Stores(encoded, v) && Fitting(v) && |encoded| <= MAXIMUM_VERIFIER_BYTES
    ensures Parse(encoded) == Some(v)
  {
    hide Split, Join, Free, Ascii, Decimal.Print, Base64.Encode, Base64.WithoutBreaks, Base64.DecodeSymbols, ParseInteger,
         Preamble, ParameterParts;
    var p := v.parameters;
    var salt, hash :|
      && Base64.WithoutBreaks(salt) == Base64.Encode(v.salt) && Base64.WithoutBreaks(hash) == Base64.Encode(v.hash)
      && encoded == Preamble(p) + salt + [DOLLAR] + hash;
    TextJoined(p, salt, hash);
    TextPartsFree(p, v, salt, hash);
    SplitJoin(TextParts(p, salt, hash), DOLLAR);
    ParametersParsed(p, salt, hash);
    Base64.EncodedSymbols(v.salt);
    Base64.EncodedSymbols(v.hash);
  }

  lemma TextPartsFree(p: Parameters, v: Parsed, salt: Bytes, hash: Bytes)
    requires Base64.WithoutBreaks(salt) == Base64.Encode(v.salt) && Base64.WithoutBreaks(hash) == Base64.Encode(v.hash)
    ensures forall i :: 0 <= i < 6 ==> Free(TextParts(p, salt, hash)[i], DOLLAR)
  {
    hide Free, Ascii, Decimal.Print, ParameterParts, Join, Base64.Encode, Base64.WithoutBreaks;
    PartsFree(p, v.salt, v.hash);
    var parts := Parts(p, v.salt, v.hash);
    assert Free(parts[0], DOLLAR) && Free(parts[1], DOLLAR) && Free(parts[2], DOLLAR) && Free(parts[3], DOLLAR);
    EncodedFree(v.salt);
    EncodedFree(v.hash);
    BreaksAreFree(salt);
    BreaksAreFree(hash);
  }

  lemma ParametersParsed(p: Parameters, salt: Bytes, hash: Bytes)
    requires Accepted(p)
    ensures var q := Split(Join(ParameterParts(p), COMMA), COMMA);
            && |q| == 3
            && ParseInteger(q[0], MEMORY_PREFIX, 0x1_0000_0000) == Some(p.memory)
            && ParseInteger(q[1], ITERATIONS_PREFIX, 0x1_0000_0000) == Some(p.iterations)
            && ParseInteger(q[2], PARALLELISM_PREFIX, 256) == Some(p.parallelism)
  {
    hide Split, Join, Free, Ascii, Decimal.Print, ParseInteger;
    ParametersFree(p);
    SplitJoin(ParameterParts(p), COMMA);
    ParsePrinted(MEMORY_PREFIX, p.memory, 0x1_0000_0000);
    ParsePrinted(ITERATIONS_PREFIX, p.iterations, 0x1_0000_0000);
    ParsePrinted(PARALLELISM_PREFIX, p.parallelism, 256);
  }

  lemma ParsedIsStored(encoded: Bytes)
    requires Parse(encoded).Some?
    ensures Stores(encoded, Parse(encoded).value) && Fitting(Parse(encoded).value)
    ensures |encoded| <= MAXIMUM_VERIFIER_BYTES
  {
    hide Split, Join, Ascii, Decimal.Print, Base64.Encode, Base64.WithoutBreaks, Base64.DecodeSymbols, ParseInteger, Accepted, Preamble;
    var parts := Split(encoded, DOLLAR);
    var q := Split(parts[3], COMMA);
    var v := Parse(encoded).value;
    JoinSplit(encoded, DOLLAR);
    JoinSplit(parts[3], COMMA);
    PrintParsed(q[0], MEMORY_PREFIX, 0x1_0000_0000);
    PrintParsed(q[1], ITERATIONS_PREFIX, 0x1_0000_0000);
    PrintParsed(q[2], PARALLELISM_PREFIX, 256);
    assert q == ParameterParts(v.parameters);
    assert parts == TextParts(v.parameters, parts[4], parts[5]);
    TextJoined(v.parameters, parts[4], parts[5]);
    Base64.EncodeDecoded(Base64.WithoutBreaks(parts[4]));
    Base64.EncodeDecoded(Base64.WithoutBreaks(parts[5]));
  }

  /**
   A text is parsed to a value exactly when it is the printed text of the value, but for line breaks in salt and hash,
   and is not too long.
   */
  lemma ParseIff(encoded: Bytes, v: Parsed)
    ensures Parse(encoded) == Some(v) <==> Stores(encoded, v) && Fitting(v) && |encoded| <= MAXIMUM_VERIFIER_BYTES
  {
    hide Parse, Stores, Fitting;
    if Parse(encoded).Some? {
      ParsedIsStored(encoded);
    }
    if Stores(encoded, v) && Fitting(v) && |encoded| <= MAXIMUM_VERIFIER_BYTES {
      StoredIsParsed(encoded, v);
    }
  }
}
