/** Splitting a text at a separator, and joining the parts again. */
module Splitting {
  import opened ByteStrings

  /** The parts between separators. */
  function Split(s: Bytes, sep: Byte): (parts: seq<Bytes>)
    ensures parts != []
  {
    if s == [] then [[]]
    else
      var before := Split(s[..|s| - 1], sep);
      var last := s[|s| - 1];
      if last == sep then before + [[]] else before[|before| - 1 := before[|before| - 1] + [last]]
  }

  function Join(parts: seq<Bytes>, sep: Byte): Bytes {
    if parts == [] then []
    else if |parts| == 1 then parts[0]
    else Join(parts[..|parts| - 1], sep) + [sep] + parts[|parts| - 1]
  }

  lemma {:induction false} JoinSplit(s: Bytes, sep: Byte)
    ensures Join(Split(s, sep), sep) == s
  {
    if s != [] {
      var init, last := s[..|s| - 1], s[|s| - 1];
      JoinSplit(init, sep);
      var before := Split(init, sep);
      assert init + [last] == s;
      if last == sep {
        assert (before + [[]])[..|before|] == before;
        assert Join(before + [[]], sep) == init + [sep] + [];
      } else {
        JoinLonger(before, sep, last);
      }
    }
  }

  lemma JoinLonger(parts: seq<Bytes>, sep: Byte, b: Byte)
    requires parts != []
    ensures Join(parts[|parts| - 1 := parts[|parts| - 1] + [b]], sep) == Join(parts, sep) + [b]
  {
    var n := |parts| - 1;
    var longer := parts[n := parts[n] + [b]];
    assert longer[..n] == parts[..n];
    if n > 0 {
      assert Join(parts[..n], sep) + [sep] + (parts[n] + [b]) == Join(parts[..n], sep) + [sep] + parts[n] + [b];
    }
  }

  predicate Free(s: Bytes, sep: Byte) { forall i :: 0 <= i < |s| ==> s[i] != sep }

  lemma {:induction false} SplitFree(s: Bytes, sep: Byte)
    requires Free(s, sep)
    ensures Split(s, sep) == [s]
  {
    if s != [] {
      SplitFree(s[..|s| - 1], sep);
      assert s[..|s| - 1] + [s[|s| - 1]] == s;
    }
  }

  lemma {:induction false} SplitAppend(s: Bytes, sep: Byte, part: Bytes)
    requires Free(part, sep)
    ensures Split(s + [sep] + part, sep) == Split(s, sep) + [part]
    decreases |part|
  {
    var all := s + [sep] + part;
    if part == [] {
      assert all[..|all| - 1] == s;
    } else {
      var n := |part| - 1;
      SplitAppend(s, sep, part[..n]);
      assert all[..|all| - 1] == s + [sep] + part[..n];
      assert all[|all| - 1] == part[n];
      assert part[..n] + [part[n]] == part;
      var parts := Split(s, sep);
      assert (parts + [part[..n]])[|parts| := part] == parts + [part];
    }
  }

  lemma {:induction false} SplitJoin(parts: seq<Bytes>, sep: Byte)
    requires parts != [] && forall i :: 0 <= i < |parts| ==> Free(parts[i], sep)
    ensures Split(Join(parts, sep), sep) == parts
  {
    var n := |parts| - 1;
    if n == 0 {
      SplitFree(parts[0], sep);
    } else {
      SplitJoin(parts[..n], sep);
      SplitAppend(Join(parts[..n], sep), sep, parts[n]);
    }
  }

  /** No part holds the separator. */
  lemma {:induction false} SplitIsFree(s: Bytes, sep: Byte)
    ensures forall i :: 0 <= i < |Split(s, sep)| ==> Free(Split(s, sep)[i], sep)
  {
    if s != [] {
      SplitIsFree(s[..|s| - 1], sep);
    }
  }
}
