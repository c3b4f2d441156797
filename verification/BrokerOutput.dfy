/** The output of a native run: collected within limits, redacted, made safe to show, and redacted again. */
module BrokerOutput {
  import opened ByteStrings
  import opened RedactionSpec
  import Utf8

  const QUESTION_MARK: Byte := 63

  // ---------- collecting ----------

  datatype Stream = Stdout | Stderr

  function Min(a: int, b: int): int { if a < b then a else b }

  function Max(a: int, b: int): int { if a < b then b else a }

  class Collector {
    const stdoutLimit: int
    const stderrLimit: int
    const aggregateLimit: int
    var stdout: Bytes
    var stderr: Bytes
    var overflowed: bool
    // All that was ever written.
    ghost var allStdout: Bytes
    ghost var allStderr: Bytes

    /** Some limit is exceeded by what was written. */
    ghost predicate Exceeded()
      reads this
    {
      |allStdout| > stdoutLimit || |allStderr| > stderrLimit || |allStdout| + |allStderr| > aggregateLimit
    }

    ghost predicate Valid()
      reads this
    {
      && 0 <= stdoutLimit && 0 <= stderrLimit && 0 <= aggregateLimit
      && |stdout| <= stdoutLimit && |stderr| <= stderrLimit && |stdout| + |stderr| <= aggregateLimit
      && (overflowed <==> Exceeded())
      && (!overflowed ==> stdout == allStdout && stderr == allStderr)
    }

    constructor (stdoutLimit: int, stderrLimit: int, aggregateLimit: int)
      requires 0 <= stdoutLimit && 0 <= stderrLimit && 0 <= aggregateLimit
      ensures Valid() && allStdout == [] && allStderr == []
      ensures this.stdoutLimit == stdoutLimit && this.stderrLimit == stderrLimit && this.aggregateLimit == aggregateLimit
    {
      this.stdoutLimit, this.stderrLimit, this.aggregateLimit := stdoutLimit, stderrLimit, aggregateLimit;
      stdout, stderr, overflowed := [], [], false;
      allStdout, allStderr := [], [];
    }

    /** Keeps what the limits leave room for; says whether this write was the first that did not fit. */
    method Write(stream: Stream, value: Bytes) returns (written: nat, newOverflow: bool)
      requires Valid()
      modifies this
      ensures Valid() && written == |value| && newOverflow == (overflowed && !old(overflowed))
      ensures allStdout == old(allStdout) + (if stream.Stdout? then value else [])
      ensures allStderr == old(allStderr) + (if stream.Stderr? then value else [])
    {
      var buffered, limit := if stream.Stdout? then |stdout| else |stderr|,
                             if stream.Stdout? then stdoutLimit else stderrLimit;
      var remainingStream := Max(limit - buffered, 0);
      var remainingAggregate := Max(aggregateLimit - |stdout| - |stderr|, 0);
      var accepted := Min(|value|, Min(remainingStream, remainingAggregate));
      if accepted > 0 {
        if stream.Stdout? {
          stdout := stdout + value[..accepted];
        } else {
          stderr := stderr + value[..accepted];
        }
      }
      newOverflow := accepted != |value| && !overflowed;
      if accepted != |value| {
        overflowed := true;
      }
      written := |value|;
      allStdout := allStdout + if stream.Stdout? then value else [];
      allStderr := allStderr + if stream.Stderr? then value else [];
      assert accepted == |value| ==> value[..accepted] == value;
    }

    /** Releases both streams whole, or nothing: exactly when no limit was exceeded. */
    method Take() returns (out: Bytes, err: Bytes, over: bool)
      requires Valid()
      modifies this
      ensures over == old(Exceeded())
      ensures !over ==> out == old(allStdout) && err == old(allStderr)
      ensures over ==> out == [] && err == []
      ensures stdout == [] && stderr == []
    {
      over, out, err := overflowed, [], [];
      if !over {
        out, err := stdout, stderr;
      }
      stdout, stderr := [], [];
    }
  }

  // ---------- sanitizing ----------

  /** Unicode general category Cf. */
  predicate IsFormat(r: int) {
    || r == 0xAD || 0x600 <= r <= 0x605 || r == 0x61C || r == 0x6DD || r == 0x70F || 0x890 <= r <= 0x891 || r == 0x8E2
    || r == 0x180E || 0x200B <= r <= 0x200F || 0x202A <= r <= 0x202E || 0x2060 <= r <= 0x2064 || 0x2066 <= r <= 0x206F
    || r == 0xFEFF || 0xFFF9 <= r <= 0xFFFB || r == 0x110BD || r == 0x110CD || 0x13430 <= r <= 0x1343F
    || 0x1BCA0 <= r <= 0x1BCA3 || 0x1D173 <= r <= 0x1D17A || r == 0xE0001 || 0xE0020 <= r <= 0xE007F
  }

  /** May be shown as it is. */
  predicate IsPlain(r: int) { r == 10 || r == 9 || !(Utf8.IsControl(r) || IsFormat(r)) }

  /** Valid UTF-8 of plain runes only. */
  predicate Plain(s: Bytes) {
    s == [] || (Utf8.RuneLength(s) > 0 && IsPlain(Utf8.RuneValue(s)) && Plain(s[Utf8.RuneLength(s)..]))
  }

  /** Every byte that belongs to no rune, and every rune that is not plain, becomes a question mark. */
  function Sanitized(v: Bytes): (r: Bytes)
    ensures |r| <= |v|
  {
    if v == [] then []
    else
      var n := Utf8.RuneLength(v);
      if n == 0 then [QUESTION_MARK] + Sanitized(v[1..])
      else if !IsPlain(Utf8.RuneValue(v)) then [QUESTION_MARK] + Sanitized(v[n..])
      else v[..n] + Sanitized(v[n..])
  }

  method SanitizeOutput(value: Bytes) returns (result: Bytes)
    ensures result == Sanitized(value)
  {
    hide Utf8.RuneLength, Utf8.RuneValue, IsPlain, Utf8.Encode, Sanitized;
    result := [];
    var rest := value;
    while |rest| != 0
      invariant Sanitized(value) == result + Sanitized(rest)
      decreases |rest|
    {
      var size := Utf8.RuneLength(rest);
      ghost var before, piece, all := result, [QUESTION_MARK], rest;
      if size == 0 {
        result := result + [QUESTION_MARK];
        rest := rest[1..];
      } else {
        var r := Utf8.RuneValue(rest);
        Utf8.EncodeDecoded(rest);
        if !IsPlain(r) {
          result := result + [QUESTION_MARK];
        } else {
          piece := Utf8.Encode(r);
          result := result + Utf8.Encode(r);
        }
        rest := rest[size..];
      }
      SanitizedStep(all);
      assert before + (piece + Sanitized(rest)) == before + piece + Sanitized(rest);
    }
    SanitizedNothing();
    assert result + [] == result;
  }

  lemma SanitizedNothing()
    ensures Sanitized([]) == []
  {
  }

  lemma SanitizedStep(v: Bytes)
    requires v != []
    ensures var n := Utf8.RuneLength(v);
            Sanitized(v) == if n == 0 then [QUESTION_MARK] + Sanitized(v[1..])
                            else if !IsPlain(Utf8.RuneValue(v)) then [QUESTION_MARK] + Sanitized(v[n..])
                            else v[..n] + Sanitized(v[n..])
  {
    hide Utf8.RuneLength, Utf8.RuneValue, IsPlain;
  }

  lemma QuestionMarkPlain(s: Bytes)
    requires Plain(s)
    ensures Plain([QUESTION_MARK] + s)
  {
    assert ([QUESTION_MARK] + s)[1..] == s;
  }

  lemma PlainRuneJoin(s: Bytes, n: nat, t: Bytes)
    requires Utf8.RuneLength(s) == n > 0 && IsPlain(Utf8.RuneValue(s)) && Plain(t)
    ensures Plain(s[..n] + t)
  {
    hide Utf8.RuneLength, Utf8.RuneValue, IsPlain;
    Utf8.RuneCut(s, n);
    Utf8.RuneJoin(s[..n], t);
    assert (s[..n] + t)[n..] == t;
    SameRune(s, s[..n] + t);
  }

  lemma SameRune(s: Bytes, t: Bytes)
    requires Utf8.RuneLength(s) == Utf8.RuneLength(t) > 0 && s[..Utf8.RuneLength(s)] == t[..Utf8.RuneLength(s)]
    ensures Utf8.RuneValue(s) == Utf8.RuneValue(t)
  {
    var n := Utf8.RuneLength(s);
    hide Utf8.RuneLength;
    assert forall i :: 0 <= i < n ==> s[i] == s[..n][i] && t[i] == t[..n][i];
  }

  lemma {:induction false} SanitizedIsPlain(v: Bytes)
    ensures Plain(Sanitized(v))
  {
    hide Utf8.RuneLength, Utf8.RuneValue, IsPlain;
    if v != [] {
      var n := Utf8.RuneLength(v);
      if n == 0 {
        SanitizedIsPlain(v[1..]);
        QuestionMarkPlain(Sanitized(v[1..]));
      } else {
        SanitizedIsPlain(v[n..]);
        if IsPlain(Utf8.RuneValue(v)) {
          PlainRuneJoin(v, n, Sanitized(v[n..]));
        } else {
          QuestionMarkPlain(Sanitized(v[n..]));
        }
      }
    }
  }

  /** Exactly plain text is left as it is. */
  lemma {:induction false} SanitizedIdentity(v: Bytes)
    ensures Sanitized(v) == v <==> Plain(v)
  {
    SanitizedIsPlain(v);
    if Plain(v) {
      PlainStays(v);
    }
  }

  lemma {:induction false} PlainStays(v: Bytes)
    requires Plain(v)
    ensures Sanitized(v) == v
  {
    hide Utf8.RuneLength, Utf8.RuneValue, IsPlain;
    if v != [] {
      PlainStays(v[Utf8.RuneLength(v)..]);
    }
  }

  // ---------- rune by rune ----------

  function ShownRune(r: int): int { if IsPlain(r) then r else QUESTION_MARK }

  function ShownRunes(runes: seq<int>): seq<int> {
    if runes == [] then [] else [ShownRune(runes[0])] + ShownRunes(runes[1..])
  }

  lemma {:induction false} ShownRunesAre(runes: seq<int>)
    requires Utf8.AllRunes(runes)
    ensures Utf8.AllRunes(ShownRunes(runes))
  {
    hide IsPlain;
    if runes != [] {
      ShownRunesAre(runes[1..]);
    }
  }

  /** A rune at the front stays as it is when it is plain, and becomes one question mark otherwise. */
  lemma SanitizedRune(r: int, rest: Bytes)
    requires Utf8.IsRune(r)
    ensures Sanitized(Utf8.Encode(r) + rest) == (if IsPlain(r) then Utf8.Encode(r) else [QUESTION_MARK]) + Sanitized(rest)
  {
    hide Utf8.RuneLength, Utf8.RuneValue, IsPlain, Utf8.Encode, Sanitized;
    var v := Utf8.Encode(r) + rest;
    Utf8.DecodeEncoded(r, rest);
    Utf8.EncodeNotEmpty(r);
    SanitizedStep(v);
    assert v[..|Utf8.Encode(r)|] == Utf8.Encode(r) && v[|Utf8.Encode(r)|..] == rest;
  }

  /** Where no rune begins, one byte becomes a question mark. */
  lemma SanitizedBroken(v: Bytes)
    requires v != [] && forall r :: Utf8.IsRune(r) ==> !(Utf8.Encode(r) <= v)
    ensures Sanitized(v) == [QUESTION_MARK] + Sanitized(v[1..])
  {
    hide Utf8.RuneLength, Utf8.RuneValue, IsPlain, Utf8.Encode, Sanitized;
    if Utf8.RuneLength(v) > 0 {
      Utf8.EncodeDecoded(v);
      Utf8.RuneBegins(v, Utf8.RuneValue(v));
    }
    SanitizedStep(v);
  }

  /** Valid text is sanitized rune by rune: in its order, every plain rune stays and every other is a question mark. */
  lemma {:induction false} SanitizedRunes(runes: seq<int>)
    requires Utf8.AllRunes(runes)
    ensures Utf8.AllRunes(ShownRunes(runes))
    ensures Sanitized(Utf8.EncodeAll(runes)) == Utf8.EncodeAll(ShownRunes(runes))
  {
    hide IsPlain, Sanitized, Utf8.Encode;
    ShownRunesAre(runes);
    if runes == [] {
      SanitizedNothing();
    } else {
      var r := runes[0];
      SanitizedRunes(runes[1..]);
      SanitizedRune(r, Utf8.EncodeAll(runes[1..]));
      QuestionMarkIsByte();
      assert ShownRunes(runes)[0] == ShownRune(r) && ShownRunes(runes)[1..] == ShownRunes(runes[1..]);
    }
  }

  lemma QuestionMarkIsByte()
    ensures Utf8.IsRune(QUESTION_MARK) && Utf8.Encode(QUESTION_MARK) == [QUESTION_MARK]
  {
  }

  // ---------- deleting from plain text ----------

  lemma {:induction false} PlainSplit(s: Bytes, i: nat)
    requires Plain(s) && Utf8.Boundary(s, i)
    ensures Plain(s[..i]) && Plain(s[i..])
    decreases |s|
  {
    hide Utf8.RuneLength, Utf8.RuneValue, IsPlain;
    if i == 0 {
      assert s[0..] == s;
    } else {
      var n := Utf8.RuneLength(s);
      Utf8.RuneBytes(s);
      assert n <= i;
      assert Utf8.Boundary(s[n..], i - n);
      PlainSplit(s[n..], i - n);
      assert s[n..][i - n..] == s[i..];
      PlainRuneJoin(s, n, s[n..][..i - n]);
      assert s[..n] + s[n..][..i - n] == s[..i];
    }
  }

  lemma {:induction false} PlainJoin(a: Bytes, b: Bytes)
    requires Plain(a) && Plain(b)
    ensures Plain(a + b)
  {
    hide Utf8.RuneLength, Utf8.RuneValue, IsPlain;
    if a == [] {
      assert a + b == b;
    } else {
      var n := Utf8.RuneLength(a);
      PlainJoin(a[n..], b);
      PlainRuneJoin(a, n, a[n..] + b);
      assert a[..n] + (a[n..] + b) == a + b;
    }
  }

  lemma {:induction false} PlainBehind(p: Bytes, b: Bytes)
    requires Utf8.Valid(p) && Plain(p + b)
    ensures Plain(b)
  {
    hide Utf8.RuneLength, Utf8.RuneValue, IsPlain;
    if p == [] {
      assert p + b == b;
    } else {
      var n := Utf8.RuneLength(p);
      Utf8.RuneJoin(p, b);
      assert (p + b)[n..] == p[n..] + b;
      PlainBehind(p[n..], b);
    }
  }

  /** Deleting whole runes from plain text leaves plain text. */
  lemma PlainDelete(s: Bytes, i: nat, j: nat)
    requires Plain(s) && i < j <= |s| && Utf8.Valid(s[i..j])
    ensures Plain(s[..i] + s[j..])
  {
    hide Utf8.RuneLength, Utf8.RuneValue, IsPlain;
    Utf8.RuneBytes(s[i..j]);
    assert s[i] == s[i..j][0];
    PlainSplit(s, i);
    assert s[i..] == s[i..j] + s[j..];
    PlainBehind(s[i..j], s[j..]);
    PlainJoin(s[..i], s[j..]);
  }

  lemma {:induction false} PlainDeletes(patterns: seq<Bytes>, s: Bytes, t: Bytes, n: nat)
    requires Plain(s) && DeletesTo(patterns, s, t, n) && forall x :: x in patterns ==> Utf8.Valid(x)
    ensures Plain(t)
  {
    hide Plain, Utf8.Valid;
    if n > 0 {
      var i, j :| 0 <= i < j <= |s| && s[i..j] in patterns && DeletesTo(patterns, s[..i] + s[j..], t, n - 1);
      PlainDelete(s, i, j);
      PlainDeletes(patterns, s[..i] + s[j..], t, n - 1);
    }
  }

  // ---------- the pipeline ----------

  function Safe(patterns: seq<Bytes>, captured: Bytes): Bytes {
    Redact(patterns, Sanitized(Redact(patterns, captured)))
  }

  /**
   What is kept of any captured bytes holds no secret and is no longer than what was captured. When all secrets are
   valid UTF-8, it is valid UTF-8 without control or format runes but for line feed and tab.
   */
  lemma SafeOutput(patterns: seq<Bytes>, captured: Bytes)
    ensures PatternFree(patterns, Safe(patterns, captured)) && |Safe(patterns, captured)| <= |captured|
    ensures (forall x :: x in patterns ==> Utf8.Valid(x)) ==> Plain(Safe(patterns, captured))
  {
    hide Utf8.Valid;
    var once := Redact(patterns, captured);
    var shown := Sanitized(once);
    RedactIsPatternFree(patterns, shown);
    SanitizedIsPlain(once);
    var m := RedactOnlyDeletesPatterns(patterns, captured);
    var n := RedactOnlyDeletesPatterns(patterns, shown);
    if forall x :: x in patterns ==> Utf8.Valid(x) {
      PlainDeletes(patterns, shown, Redact(patterns, shown), n);
    }
  }

  /** One pass would not do: sanitizing can put a secret together that was not there before. */
  lemma OnePassLeaks()
    ensures var patterns, captured: Bytes := [[97, QUESTION_MARK]], [97, 7];
            Sanitized(Redact(patterns, captured)) == [97, QUESTION_MARK] && Safe(patterns, captured) == []
  {
    var patterns: seq<Bytes>, captured: Bytes := [[97, QUESTION_MARK]], [97, 7];
    assert PatternFree(patterns, captured) by {
      forall i, j | 0 <= i < j <= |captured| ensures captured[i..j] !in patterns {
        assert captured[i..j] != [97, QUESTION_MARK] by {
          if |captured[i..j]| == 2 {
            assert captured[i..j][1] == 7;
          }
        }
      }
    }
    RedactKeepsPatternFree(patterns, captured);
    SanitizedBell();
    RedactPair();
  }

  lemma SanitizedBell()
    ensures Sanitized([97, 7]) == [97, QUESTION_MARK]
  {
    var v: Bytes := [97, 7];
    assert v[1..] == [7] && v[..1] == [97] && v[1..][1..] == [];
    assert Sanitized([7]) == [QUESTION_MARK] + Sanitized(v[1..][1..]);
  }

  lemma RedactPair()
    ensures Redact([[97, QUESTION_MARK]], [97, QUESTION_MARK]) == []
  {
    var p: seq<Bytes>, v: Bytes := [[97, QUESTION_MARK]], [97, QUESTION_MARK];
    assert v[..1] == [97] && v[..1][..0] == [];
    assert Redact(p, []) == [];
    LongestMatchIs(p, [97], 0);
    assert [] + [v[..1][0]] == [97];
    assert Redact(p, [97]) == DropMatch(p, [97]) == [97][..1] == [97];
    LongestMatchIs(p, v, 2);
    assert [97] + [v[1]] == v;
  }
}
