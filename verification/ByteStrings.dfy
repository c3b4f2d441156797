/** Byte strings, the common currency of every text-handling component. */
module ByteStrings {
  type Byte = b: int | 0 <= b < 256
  type Bytes = seq<Byte>

  datatype Option<+T> = None | Some(value: T)

  /** The bytes of an ASCII text. */
  function Ascii(s: string): Bytes
    requires forall i :: 0 <= i < |s| ==> s[i] < '\U{0080}'
  {
    seq(|s|, i requires 0 <= i < |s| => s[i] as int)
  }

  /** No two of s are equal. */
  predicate AllDiffer(s: seq<Bytes>) {
    forall i, j :: 0 <= i < j < |s| ==> s[i] != s[j]
  }

  /** The last k bytes of s. */
  function Ending(s: Bytes, k: nat): Bytes
    requires k <= |s|
  {
    s[|s| - k..]
  }

  /** t ends s. */
  predicate IsSuffix(t: Bytes, s: Bytes) {
    |t| <= |s| && Ending(s, |t|) == t
  }

  lemma SuffixTransitive(a: Bytes, b: Bytes, c: Bytes)
    requires IsSuffix(a, b) && IsSuffix(b, c)
    ensures IsSuffix(a, c)
  {
    assert Ending(c, |a|) == Ending(Ending(c, |b|), |a|);
  }
}
