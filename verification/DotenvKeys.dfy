/** A key and the white space runes around it. */
module DotenvKeys {
  import opened ByteStrings
  import opened DotenvSyntax

  predicate IsKeyByte(b: Byte) { IsUpper(b) || IsLower(b) || IsDigit(b) || b == 95 || b == 46 }

  /** White space runes, one after the other. */
  predicate WideSpaces(s: Bytes) {
    s == []
    || (|s| >= 1 && IsWideSpace(s[..1]) && WideSpaces(s[1..]))
    || (|s| >= 2 && IsWideSpace(s[..2]) && WideSpaces(s[2..]))
    || (|s| >= 3 && IsWideSpace(s[..3]) && WideSpaces(s[3..]))
  }

  // ---------- single runes ----------

  lemma SpaceBytes(w: Bytes)
    requires IsWideSpace(w)
    ensures 1 <= |w| <= 3 && !IsKeyByte(w[0]) && !IsKeyByte(w[|w| - 1])
  {
  }

  /** No white space rune begins or ends another one. */
  lemma SpacesApart(v: Bytes, w: Bytes)
    requires IsWideSpace(v) && IsWideSpace(w) && |v| < |w|
    ensures v != w[..|v|] && v != w[|w| - |v|..]
  {
    assert w[|w| - |v|..][0] == w[|w| - |v|];
    assert w[|w| - |v|..][|v| - 1] == w[|w| - 1];
  }

  lemma OneStart(s: Bytes, k: nat, n: nat)
    requires n <= |s| && IsWideSpace(s[..n])
    ensures StartsWithSpace(s, k) ==> k >= n
  {
    hide IsWideSpace;
    if k < n && StartsWithSpace(s, k) {
      assert s[..n][..k] == s[..k];
      SpacesApart(s[..k], s[..n]);
    }
  }

  lemma OneEnd(s: Bytes, k: nat, n: nat)
    requires n <= |s| && IsWideSpace(s[|s| - n..])
    ensures EndsWithSpace(s, k) ==> k >= n
  {
    hide IsWideSpace;
    if k < n && EndsWithSpace(s, k) {
      assert s[|s| - n..][n - k..] == s[|s| - k..];
      SpacesApart(s[|s| - k..], s[|s| - n..]);
    }
  }

  lemma IsStart(s: Bytes, n: nat)
    requires n <= |s| && IsWideSpace(s[..n])
    ensures 1 <= n <= 3 && StartsWithSpace(s, n)
  {
    SpaceBytes(s[..n]);
  }

  lemma IsEnd(s: Bytes, n: nat)
    requires n <= |s| && IsWideSpace(s[|s| - n..])
    ensures 1 <= n <= 3 && EndsWithSpace(s, n)
  {
    SpaceBytes(s[|s| - n..]);
  }

  lemma TrimLeftOne(s: Bytes, n: nat)
    requires n <= |s| && IsWideSpace(s[..n])
    ensures TrimLeft(s) == TrimLeft(s[n..])
  {
    hide IsWideSpace, StartsWithSpace;
    IsStart(s, n);
    OneStart(s, 1, n);
    OneStart(s, 2, n);
    OneStart(s, 3, n);
  }

  lemma TrimRightOne(s: Bytes, n: nat)
    requires n <= |s| && IsWideSpace(s[|s| - n..])
    ensures TrimRight(s) == TrimRight(s[..|s| - n])
  {
    hide IsWideSpace, EndsWithSpace, TrimRight;
    IsEnd(s, n);
    OneEnd(s, 1, n);
    OneEnd(s, 2, n);
    OneEnd(s, 3, n);
    TrimRightIs(s);
  }

  lemma TrimRightIs(s: Bytes)
    ensures EndsWithSpace(s, 1) ==> TrimRight(s) == TrimRight(s[..|s| - 1])
    ensures !EndsWithSpace(s, 1) && EndsWithSpace(s, 2) ==> TrimRight(s) == TrimRight(s[..|s| - 2])
    ensures !EndsWithSpace(s, 1) && !EndsWithSpace(s, 2) && EndsWithSpace(s, 3) ==> TrimRight(s) == TrimRight(s[..|s| - 3])
  {
    hide IsWideSpace;
  }

  lemma NoStart(s: Bytes, k: nat)
    requires s != [] && IsKeyByte(s[0])
    ensures !StartsWithSpace(s, k)
  {
    hide IsWideSpace, IsKeyByte;
    if StartsWithSpace(s, k) {
      SpaceBytes(s[..k]);
    }
  }

  lemma NoEnd(s: Bytes, k: nat)
    requires s != [] && IsKeyByte(s[|s| - 1])
    ensures !EndsWithSpace(s, k)
  {
    hide IsWideSpace, IsKeyByte;
    if EndsWithSpace(s, k) {
      SpaceBytes(s[|s| - k..]);
    }
  }

  lemma KeyByteStarts(s: Bytes)
    requires s != [] && IsKeyByte(s[0])
    ensures TrimLeft(s) == s
  {
    hide StartsWithSpace, IsKeyByte;
    NoStart(s, 1);
    NoStart(s, 2);
    NoStart(s, 3);
  }

  lemma KeyByteEnds(s: Bytes)
    requires s != [] && IsKeyByte(s[|s| - 1])
    ensures TrimRight(s) == s
  {
    hide EndsWithSpace, IsKeyByte;
    NoEnd(s, 1);
    NoEnd(s, 2);
    NoEnd(s, 3);
  }

  // ---------- runs ----------

  lemma WideSpacesCons(w: Bytes, s: Bytes)
    requires IsWideSpace(w) && WideSpaces(s)
    ensures WideSpaces(w + s)
  {
    SpaceBytes(w);
    hide IsWideSpace;
    assert (w + s)[..|w|] == w && (w + s)[|w|..] == s;
  }

  lemma WideSpacesFirst(s: Bytes) returns (n: nat)
    requires WideSpaces(s) && s != []
    ensures 1 <= n <= 3 && n <= |s| && IsWideSpace(s[..n]) && WideSpaces(s[n..])
  {
    hide IsWideSpace;
    n :| 1 <= n <= 3 && n <= |s| && IsWideSpace(s[..n]) && WideSpaces(s[n..]);
  }

  lemma {:induction false} WideSpacesAppend(s: Bytes, w: Bytes)
    requires WideSpaces(s) && IsWideSpace(w)
    ensures WideSpaces(s + w)
  {
    NoSpaces();
    hide WideSpaces, IsWideSpace;
    if s == [] {
      WideSpacesCons(w, []);
      assert w + [] == s + w;
    } else {
      var n := WideSpacesFirst(s);
      WideSpacesAppend(s[n..], w);
      WideSpacesCons(s[..n], s[n..] + w);
      assert s[..n] + (s[n..] + w) == s + w;
    }
  }

  /** The last rune of a run. */
  lemma {:induction false} WideSpacesLast(s: Bytes) returns (n: nat)
    requires WideSpaces(s) && s != []
    ensures 1 <= n <= 3 && n <= |s| && IsWideSpace(s[|s| - n..]) && WideSpaces(s[..|s| - n])
  {
    NoSpaces();
    hide WideSpaces, IsWideSpace;
    var k := WideSpacesFirst(s);
    if s[k..] == [] {
      n := k;
      assert s[..k] == s && s[|s| - k..] == s && s[..|s| - k] == [];
    } else {
      n := WideSpacesLast(s[k..]);
      var m := |s| - n;
      assert s[k..][m - k..] == s[m..] && s[k..][..m - k] == s[k..m];
      WideSpacesCons(s[..k], s[k..m]);
      assert s[..k] + s[k..m] == s[..m];
    }
  }

  lemma NoSpaces()
    ensures WideSpaces([])
  {
  }

  lemma {:induction false} TrimLeftCuts(s: Bytes) returns (a: Bytes)
    ensures WideSpaces(a) && s == a + TrimLeft(s)
  {
    hide IsWideSpace, WideSpaces;
    NoSpaces();
    var n := if StartsWithSpace(s, 1) then 1 else if StartsWithSpace(s, 2) then 2 else if StartsWithSpace(s, 3) then 3 else 0;
    if n == 0 {
      a := [];
    } else {
      var rest := TrimLeftCuts(s[n..]);
      a := s[..n] + rest;
      WideSpacesCons(s[..n], rest);
      assert s == s[..n] + s[n..];
    }
  }

  lemma {:induction false} TrimRightCuts(s: Bytes) returns (b: Bytes)
    ensures WideSpaces(b) && s == TrimRight(s) + b
  {
    hide IsWideSpace, WideSpaces;
    NoSpaces();
    var n := if EndsWithSpace(s, 1) then 1 else if EndsWithSpace(s, 2) then 2 else if EndsWithSpace(s, 3) then 3 else 0;
    if n == 0 {
      b := [];
    } else {
      var rest := TrimRightCuts(s[..|s| - n]);
      b := rest + s[|s| - n..];
      WideSpacesAppend(rest, s[|s| - n..]);
      assert s == s[..|s| - n] + s[|s| - n..];
    }
  }

  lemma {:induction false} TrimLeftPadded(a: Bytes, t: Bytes)
    requires WideSpaces(a) && t != [] && IsKeyByte(t[0])
    ensures TrimLeft(a + t) == t
    decreases |a|
  {
    hide WideSpaces, IsWideSpace, TrimLeft, IsKeyByte;
    if a == [] {
      assert a + t == t;
      KeyByteStarts(t);
    } else {
      var n := WideSpacesFirst(a);
      assert (a + t)[..n] == a[..n] && (a + t)[n..] == a[n..] + t;
      TrimLeftOne(a + t, n);
      TrimLeftPadded(a[n..], t);
    }
  }

  lemma {:induction false} TrimRightPadded(t: Bytes, b: Bytes)
    requires WideSpaces(b) && t != [] && IsKeyByte(t[|t| - 1])
    ensures TrimRight(t + b) == t
    decreases |b|
  {
    hide WideSpaces, IsWideSpace, TrimRight, IsKeyByte;
    if b == [] {
      assert t + b == t;
      KeyByteEnds(t);
    } else {
      var n := WideSpacesLast(b);
      var s := t + b;
      assert s[|s| - n..] == b[|b| - n..] && s[..|s| - n] == t + b[..|b| - n];
      TrimRightOne(s, n);
      TrimRightPadded(t, b[..|b| - n]);
    }
  }

  /** The key is what stands between white space runes. */
  lemma TrimIff(s: Bytes, key: Bytes)
    requires ValidSourceKey(key)
    ensures Trim(s) == key <==> exists a, b :: WideSpaces(a) && WideSpaces(b) && s == a + key + b
  {
    hide WideSpaces, TrimLeft, TrimRight;
    if Trim(s) == key {
      var a := TrimLeftCuts(s);
      var b := TrimRightCuts(TrimLeft(s));
      assert s == a + key + b;
    }
    if a, b :| WideSpaces(a) && WideSpaces(b) && s == a + key + b {
      assert s == a + (key + b);
      TrimLeftPadded(a, key + b);
      TrimRightPadded(key, b);
    }
  }
}
