/**
 What redaction means, stated without any automaton: append one input byte at a time and, whenever the
 text so far ends with secret patterns, drop the longest of them.
 */
module RedactionSpec {
  import opened ByteStrings

  /** p is a prefix of some pattern, that is, a path of the pattern trie. */
  ghost predicate TriePath(patterns: seq<Bytes>, p: Bytes) {
    p == [] || exists i :: 0 <= i < |patterns| && p <= patterns[i]
  }

  /** The length of the longest pattern of at most k bytes that ends s, or 0. */
  function MatchUpTo(patterns: seq<Bytes>, s: Bytes, k: nat): (n: nat)
    requires k <= |s|
    ensures n <= k
    ensures n > 0 ==> Ending(s, n) in patterns
    ensures forall m :: n < m <= k ==> Ending(s, m) !in patterns
  {
    if k == 0 then 0
    else if Ending(s, k) in patterns then k
    else MatchUpTo(patterns, s, k - 1)
  }

  function LongestMatch(patterns: seq<Bytes>, s: Bytes): (n: nat)
    ensures n <= |s|
  {
    MatchUpTo(patterns, s, |s|)
  }

  /** LongestMatch is characterized by what MatchUpTo promises. */
  lemma LongestMatchIs(patterns: seq<Bytes>, s: Bytes, n: nat)
    requires n <= |s|
    requires n > 0 ==> Ending(s, n) in patterns
    requires forall m :: n < m <= |s| ==> Ending(s, m) !in patterns
    ensures LongestMatch(patterns, s) == n
  {
    var k := LongestMatch(patterns, s);
    var found, claimed := Ending(s, k), Ending(s, n);
    assert n < k ==> found !in patterns;
    assert k < n ==> claimed !in patterns;
  }

  function DropMatch(patterns: seq<Bytes>, s: Bytes): Bytes {
    s[..|s| - LongestMatch(patterns, s)]
  }

  function Redact(patterns: seq<Bytes>, input: Bytes): Bytes {
    if input == [] then []
    else DropMatch(patterns, Redact(patterns, input[..|input| - 1]) + [input[|input| - 1]])
  }

  lemma RedactStep(patterns: seq<Bytes>, input: Bytes, i: nat, text: Bytes, matched: int)
    requires i < |input| && text == Redact(patterns, input[..i]) + [input[i]]
    requires matched == LongestMatch(patterns, text)
    ensures text[..|text| - matched] == Redact(patterns, input[..i + 1])
  {
    assert input[..i + 1][..i] == input[..i];
  }

  /** No pattern occurs anywhere in s. */
  ghost predicate PatternFree(patterns: seq<Bytes>, s: Bytes) {
    forall i, j :: 0 <= i < j <= |s| ==> s[i..j] !in patterns
  }

  lemma PatternFreePrefix(patterns: seq<Bytes>, s: Bytes, k: nat)
    requires PatternFree(patterns, s) && k <= |s|
    ensures PatternFree(patterns, s[..k])
  {
    forall i, j | 0 <= i < j <= k ensures s[..k][i..j] !in patterns {
      assert s[..k][i..j] == s[i..j];
    }
  }

  lemma DropMatchIsPatternFree(patterns: seq<Bytes>, s: Bytes, b: Byte)
    requires PatternFree(patterns, s)
    ensures PatternFree(patterns, DropMatch(patterns, s + [b]))
  {
    var r := s + [b];
    var n := LongestMatch(patterns, r);
    if n > 0 {
      assert DropMatch(patterns, r) == s[..|r| - n];
      PatternFreePrefix(patterns, s, |r| - n);
    } else {
      forall i, j | 0 <= i < j <= |r| ensures r[i..j] !in patterns {
        if j == |r| {
          assert r[i..j] == Ending(r, |r| - i);
        } else {
          assert r[i..j] == s[i..j];
        }
      }
      assert DropMatch(patterns, r) == r;
    }
  }

  /** No secret survives anywhere in the output, for every input and every pattern list. */
  lemma {:induction false} RedactIsPatternFree(patterns: seq<Bytes>, input: Bytes)
    ensures PatternFree(patterns, Redact(patterns, input))
  {
    if input != [] {
      var init := input[..|input| - 1];
      RedactIsPatternFree(patterns, init);
      DropMatchIsPatternFree(patterns, Redact(patterns, init), input[|input| - 1]);
    }
  }

  /** Redaction changes exactly the texts that contain a pattern. */
  lemma {:induction false} RedactIdentity(patterns: seq<Bytes>, input: Bytes)
    ensures Redact(patterns, input) == input <==> PatternFree(patterns, input)
  {
    RedactIsPatternFree(patterns, input);
    if PatternFree(patterns, input) {
      RedactKeepsPatternFree(patterns, input);
    }
  }

  lemma {:induction false} RedactKeepsPatternFree(patterns: seq<Bytes>, input: Bytes)
    requires PatternFree(patterns, input)
    ensures Redact(patterns, input) == input
  {
    if input != [] {
      var init := input[..|input| - 1];
      PatternFreePrefix(patterns, input, |input| - 1);
      RedactKeepsPatternFree(patterns, init);
      assert init + [input[|input| - 1]] == input;
      var n := LongestMatch(patterns, input);
      assert Ending(input, n) == input[|input| - n..|input|];
    }
  }

  lemma RedactIdempotent(patterns: seq<Bytes>, input: Bytes)
    ensures Redact(patterns, Redact(patterns, input)) == Redact(patterns, input)
  {
    RedactIsPatternFree(patterns, input);
    RedactKeepsPatternFree(patterns, Redact(patterns, input));
  }

  /** t is what n successive deletions of one whole pattern occurrence leave of s. */
  ghost predicate DeletesTo(patterns: seq<Bytes>, s: Bytes, t: Bytes, n: nat) {
    if n == 0 then s == t
    else exists i, j ::
        0 <= i < j <= |s| && s[i..j] in patterns && DeletesTo(patterns, s[..i] + s[j..], t, n - 1)
  }

  lemma {:induction false} DeletesToAppend(patterns: seq<Bytes>, s: Bytes, t: Bytes, n: nat, b: Byte)
    requires DeletesTo(patterns, s, t, n)
    ensures DeletesTo(patterns, s + [b], t + [b], n)
  {
    if n > 0 {
      var i, j :| 0 <= i < j <= |s| && s[i..j] in patterns && DeletesTo(patterns, s[..i] + s[j..], t, n - 1);
      DeletesToAppend(patterns, s[..i] + s[j..], t, n - 1, b);
      var u := s + [b];
      assert u[i..j] == s[i..j];
      assert u[..i] + u[j..] == s[..i] + s[j..] + [b];
    }
  }

  lemma {:induction false} DeletesToOnce(patterns: seq<Bytes>, s: Bytes, t: Bytes, n: nat, i: nat, j: nat)
    requires DeletesTo(patterns, s, t, n)
    requires i < j <= |t| && t[i..j] in patterns
    ensures DeletesTo(patterns, s, t[..i] + t[j..], n + 1)
  {
    if n == 0 {
      assert DeletesTo(patterns, t[..i] + t[j..], t[..i] + t[j..], 0);
    } else {
      var a, b :| 0 <= a < b <= |s| && s[a..b] in patterns && DeletesTo(patterns, s[..a] + s[b..], t, n - 1);
      DeletesToOnce(patterns, s[..a] + s[b..], t, n - 1, i, j);
    }
  }

  /** Nothing but whole secrets is ever removed: the output is reached from the input by pattern deletions. */
  lemma {:induction false} RedactOnlyDeletesPatterns(patterns: seq<Bytes>, input: Bytes) returns (n: nat)
    ensures DeletesTo(patterns, input, Redact(patterns, input), n)
    ensures |Redact(patterns, input)| + n <= |input|
  {
    if input == [] {
      n := 0;
    } else {
      var init, b := input[..|input| - 1], input[|input| - 1];
      var before := Redact(patterns, init);
      n := RedactOnlyDeletesPatterns(patterns, init);
      assert init + [b] == input;
      DeletesToAppend(patterns, init, before, n, b);
      n := DropMatchDeletes(patterns, input, before + [b], n);
    }
  }

  lemma DropMatchDeletes(patterns: seq<Bytes>, s: Bytes, r: Bytes, n: nat) returns (n': nat)
    requires DeletesTo(patterns, s, r, n) && |r| + n <= |s|
    ensures DeletesTo(patterns, s, DropMatch(patterns, r), n')
    ensures |DropMatch(patterns, r)| + n' <= |s|
  {
    var m := LongestMatch(patterns, r);
    if m > 0 {
      assert r[|r| - m..|r|] == Ending(r, m);
      DeletesToOnce(patterns, s, r, n, |r| - m, |r|);
      assert r[..|r| - m] + r[|r|..] == DropMatch(patterns, r);
      n' := n + 1;
    } else {
      assert DropMatch(patterns, r) == r;
      n' := n;
    }
  }

  /** The order and the repetition of the patterns do not matter. */
  lemma {:induction false} RedactDependsOnPatternSet(p: seq<Bytes>, q: seq<Bytes>, input: Bytes)
    requires forall x :: x in p <==> x in q
    ensures Redact(p, input) == Redact(q, input)
  {
    if input != [] {
      var init := input[..|input| - 1];
      RedactDependsOnPatternSet(p, q, init);
      var r := Redact(p, init) + [input[|input| - 1]];
      LongestMatchIs(p, r, LongestMatch(q, r));
    }
  }
}
