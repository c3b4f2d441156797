/**
 Locality of the dotenv grammar: what a unit says does not depend on the text behind its block, so texts that
 meet at a line break can be read one after the other.
 */
module DotenvLocality {
  import opened ByteStrings
  import opened DotenvSyntax

  /** y may follow a block. */
  predicate Follows(y: Bytes) { y == [] || IsBreak(y[0]) }

  /** y ends a run of horizontal space. */
  predicate Stops(y: Bytes) { y == [] || !IsHorizontal(y[0]) }

  // ---------- reading the same unit from a longer text ----------

  lemma LineJoin(x: Bytes, y: Bytes)
    requires LineLength(x) < |x| || Follows(y)
    ensures LineLength(x + y) == LineLength(x)
  {
    LineLengthIs(x + y, LineLength(x));
  }

  lemma HorizontalJoin(x: Bytes, y: Bytes)
    requires HorizontalLength(x) < |x| || Stops(y)
    ensures HorizontalLength(x + y) == HorizontalLength(x)
  {
    HorizontalLengthIs(x + y, HorizontalLength(x));
  }

  lemma KeyJoin(r: Bytes, y: Bytes)
    requires ReadKey(r).Head? && (ReadKey(r).valueStart < |r| || Stops(y))
    ensures ReadKey(r + y) == ReadKey(r)
  {
    hide Trim, ValidSourceKey, KeyLength, HorizontalLength;
    var n := KeyLength(r);
    KeyLengthIs(r + y, n);
    assert (r + y)[..n] == r[..n];
    assert (r + y)[n + 1..] == r[n + 1..] + y;
    HorizontalJoin(r[n + 1..], y);
  }

  lemma KeyStartJoin(x: Bytes, y: Bytes)
    requires ReadHead(x).Head?
    ensures KeyStart(x + y) == KeyStart(x)
  {
    hide Trim, ValidSourceKey;
    if EXPORT <= x && |x| > |EXPORT| {
      assert (x + y)[|EXPORT|..] == x[|EXPORT|..] + y;
      if IsHorizontal(x[|EXPORT|]) {
        assert ReadKey(x[KeyStart(x)..]).Head?;
        assert HorizontalLength(x[|EXPORT|..]) < |x[|EXPORT|..]|;
        HorizontalJoin(x[|EXPORT|..], y);
      }
    } else if |x| <= |EXPORT| {
      var sep := KeyLength(x);
      assert x[KeyStart(x)..] == x;
      assert (x + y)[sep] == x[sep];
      assert EXPORT[sep] != x[sep];
    }
  }

  lemma HeadJoin(x: Bytes, y: Bytes)
    requires ReadHead(x).Head? && (ReadHead(x).valueStart < |x| || Stops(y))
    ensures ReadHead(x + y) == ReadHead(x)
  {
    hide ReadKey, KeyStart;
    KeyStartJoin(x, y);
    var k := KeyStart(x);
    assert (x + y)[k..] == x[k..] + y;
    KeyJoin(x[k..], y);
  }

  lemma TrailerJoin(r: Bytes, y: Bytes)
    requires Trailer(r).Some? && (Trailer(r).value < |r| || Follows(y))
    ensures Trailer(r + y) == Trailer(r)
  {
    var t := HorizontalLength(r);
    HorizontalJoin(r, y);
    assert (r + y)[t..] == r[t..] + y;
    LineJoin(r[t..], y);
  }

  lemma QuotedJoin(v: Bytes, y: Bytes)
    requires v != [] && ReadQuoted(v).Value? && (ReadQuoted(v).blockEnd < |v| || Follows(y))
    ensures ReadQuoted(v + y) == ReadQuoted(v)
  {
    hide Trailer, HasExpansion;
    var c := CloseAt(v, v[0], 1);
    assert (v + y)[0] == v[0];
    CloseAtIs(v + y, v[0], c);
    assert (v + y)[1..c] == v[1..c];
    assert (v + y)[c + 1..] == v[c + 1..] + y;
    TrailerJoin(v[c + 1..], y);
  }

  lemma {:induction false} CommentJoin(v: Bytes, y: Bytes, p: nat, n: nat)
    requires 0 < p && n <= |v|
    ensures CommentAt(v + y, p, n) == CommentAt(v, p, n)
    decreases n - p
  {
    if p < n {
      CommentJoin(v, y, p + 1, n);
    }
  }

  lemma {:induction false} TrimmedJoin(v: Bytes, y: Bytes, n: nat)
    requires n <= |v|
    ensures TrimmedEnd(v + y, n) == TrimmedEnd(v, n)
  {
    if n > 0 {
      TrimmedJoin(v, y, n - 1);
    }
  }

  lemma BareJoin(v: Bytes, y: Bytes)
    requires LineLength(v) < |v| || Follows(y)
    ensures ReadBare(v + y) == ReadBare(v)
  {
    hide LineLength, CommentAt, TrimmedEnd, HasExpansion;
    LineJoin(v, y);
    var n := LineLength(v);
    CommentJoin(v, y, 1, n);
    TrimmedJoin(v, y, CommentAt(v, 1, n));
    var e := TrimmedEnd(v, CommentAt(v, 1, n));
    assert (v + y)[..e] == v[..e];
  }

  lemma ValueJoin(v: Bytes, y: Bytes)
    requires ReadValue(v).Value? && (ReadValue(v).blockEnd < |v| || Follows(y))
    ensures ReadValue(v + y) == ReadValue(v)
  {
    hide ReadQuoted, ReadBare;
    if v == [] {
      assert v + y == y;
    } else if IsQuote(v[0]) {
      QuotedJoin(v, y);
    } else if !IsBreak(v[0]) {
      BareBlock(v);
      BareJoin(v, y);
    }
  }

  lemma BareBlock(v: Bytes)
    ensures ReadBare(v).blockEnd == LineLength(v)
  {
  }

  // ---------- reading the same unit from a shorter text ----------

  lemma KeyCut(r: Bytes, n: nat)
    requires ReadKey(r).Head? && ReadKey(r).valueStart <= n <= |r|
    ensures ReadKey(r[..n]) == ReadKey(r)
  {
    hide Trim, ValidSourceKey;
    var m := KeyLength(r);
    KeyLengthIs(r[..n], m);
    assert r[..n][..m] == r[..m];
    HorizontalLengthIs(r[..n][m + 1..], HorizontalLength(r[m + 1..]));
  }

  lemma HeadCut(x: Bytes, n: nat)
    requires ReadHead(x).Head? && ReadHead(x).valueStart <= n <= |x|
    ensures ReadHead(x[..n]) == ReadHead(x)
  {
    hide ReadKey;
    var k, z := KeyStart(x), x[..n];
    if EXPORT <= x && |x| > |EXPORT| && IsHorizontal(x[|EXPORT|]) {
      assert EXPORT <= z;
      HorizontalLengthIs(z[|EXPORT|..], k - |EXPORT|);
    } else if EXPORT <= z {
      assert EXPORT <= x;
    }
    assert z[k..] == x[k..][..n - k];
    KeyCut(x[k..], n - k);
  }

  lemma TrailerCut(r: Bytes)
    requires Trailer(r).Some?
    ensures Trailer(r[..Trailer(r).value]) == Trailer(r)
  {
    var n, t := Trailer(r).value, HorizontalLength(r);
    HorizontalLengthIs(r[..n], t);
    LineLengthIs(r[..n][t..], n - t);
  }

  lemma QuotedCut(v: Bytes)
    requires v != [] && ReadQuoted(v).Value?
    ensures ReadQuoted(v[..ReadQuoted(v).blockEnd]) == ReadQuoted(v)
  {
    hide Trailer, HasExpansion;
    var n := ReadQuoted(v).blockEnd;
    var z := v[..n];
    var c := CloseAt(v, v[0], 1);
    CloseAtIs(z, v[0], c);
    assert z[1..c] == v[1..c];
    assert z[c + 1..] == v[c + 1..][..n - (c + 1)];
    TrailerCut(v[c + 1..]);
  }

  lemma BareCut(v: Bytes)
    ensures ReadBare(v[..LineLength(v)]) == ReadBare(v)
  {
    var n := LineLength(v);
    assert v[..n] + v[n..] == v;
    LineLengthIs(v[..n], n);
    BareJoin(v[..n], v[n..]);
  }

  lemma ValueCut(v: Bytes)
    requires ReadValue(v).Value?
    ensures ReadValue(v[..ReadValue(v).blockEnd]) == ReadValue(v)
  {
    hide ReadQuoted, ReadBare;
    if v != [] && !IsBreak(v[0]) {
      if IsQuote(v[0]) {
        QuotedCut(v);
      } else {
        BareBlock(v);
        BareCut(v);
        assert LineLength(v) > 0;
      }
    }
  }

  // ---------- units ----------

  /** Where the block of a unit ends. */
  function BlockEnd(u: Unit): nat
    requires u.Entry? || u.Comment?
  {
    if u.Entry? then u.blockEnd else u.end
  }

  lemma SpaceJoin(x: Bytes, y: Bytes)
    ensures SpaceLength(x) < |x| ==> SpaceLength(x + y) == SpaceLength(x)
    ensures SpaceLength(x) == |x| ==> SpaceLength(x + y) == |x| + SpaceLength(y)
  {
    if SpaceLength(x) < |x| {
      SpaceLengthIs(x + y, SpaceLength(x));
    } else {
      SpaceLengthIs(x + y, |x| + SpaceLength(y));
    }
  }

  lemma LineStartSame(x: Bytes, z: Bytes, w: nat)
    requires w <= |x| && w <= |z| && x[..w] == z[..w]
    ensures LineStart(x, w) == LineStart(z, w)
  {
    var n := LineStart(z, w);
    assert forall i :: 0 <= i < w ==> x[i] == x[..w][i] == z[i];
    LineStartIs(x, w, n);
  }

  lemma UnitOfJoin(t: Bytes, y: Bytes, w: nat, lineStart: nat)
    requires t != [] && lineStart <= w
    requires var u := UnitOf(t, w, lineStart); (u.Entry? || u.Comment?) && (BlockEnd(u) < w + |t| || Follows(y))
    ensures UnitOf(t + y, w, lineStart) == UnitOf(t, w, lineStart)
  {
    hide ReadHead, ReadValue;
    if t[0] == HASH {
      LineJoin(t, y);
    } else {
      var at := ReadHead(t).valueStart;
      HeadJoin(t, y);
      assert (t + y)[at..] == t[at..] + y;
      ValueJoin(t[at..], y);
    }
  }

  lemma UnitJoin(d: Bytes, y: Bytes)
    requires var u := NextUnit(d); (u.Entry? || u.Comment?) && (BlockEnd(u) < |d| || Follows(y))
    ensures NextUnit(d + y) == NextUnit(d)
  {
    hide UnitOf, SpaceLength, LineStart;
    var w := SpaceLength(d);
    SpaceJoin(d, y);
    assert (d + y)[w..] == d[w..] + y;
    LineStartSame(d + y, d, w);
    UnitOfJoin(d[w..], y, w, LineStart(d, w));
  }

  lemma UnitOfCut(t: Bytes, w: nat, lineStart: nat)
    requires t != [] && lineStart <= w
    requires var u := UnitOf(t, w, lineStart); u.Entry? || u.Comment?
    ensures var n := BlockEnd(UnitOf(t, w, lineStart)) - w;
            0 < n <= |t| && UnitOf(t[..n], w, lineStart) == UnitOf(t, w, lineStart)
  {
    hide ReadHead, ReadValue;
    var n := BlockEnd(UnitOf(t, w, lineStart)) - w;
    if t[0] == HASH {
      LineLengthIs(t[..n], n);
    } else {
      var at := ReadHead(t).valueStart;
      HeadCut(t, n);
      ValueCut(t[at..]);
      assert t[..n][at..] == t[at..][..n - at];
    }
  }

  lemma UnitCut(d: Bytes)
    requires var u := NextUnit(d); u.Entry? || u.Comment?
    ensures NextUnit(d[..BlockEnd(NextUnit(d))]) == NextUnit(d)
  {
    hide UnitOf, SpaceLength, LineStart;
    var n, w := BlockEnd(NextUnit(d)), SpaceLength(d);
    UnitOfCut(d[w..], w, LineStart(d, w));
    SpaceLengthIs(d[..n], w);
    assert d[..n][w..] == d[w..][..n - w];
    LineStartSame(d[..n], d, w);
  }

  /** A block ends in front of a line break or at the end of the text, and its last byte is none. */
  lemma UnitEnds(d: Bytes)
    requires var u := NextUnit(d); u.Entry? || u.Comment?
    ensures var n := BlockEnd(NextUnit(d)); 0 < n && !IsBreak(d[n - 1]) && Follows(d[n..])
  {
    hide UnitOf, LineStart, SpaceLength;
    var w := SpaceLength(d);
    UnitOfEnds(d[w..], w, LineStart(d, w));
    var m := BlockEnd(NextUnit(d)) - w;
    assert d[w..][m - 1] == d[w + m - 1];
    assert d[w..][m..] == d[w + m..];
  }

  lemma UnitOfEnds(t: Bytes, w: nat, lineStart: nat)
    requires t != [] && lineStart <= w
    requires var u := UnitOf(t, w, lineStart); u.Entry? || u.Comment?
    ensures var m := BlockEnd(UnitOf(t, w, lineStart)) - w;
            0 < m <= |t| && !IsBreak(t[m - 1]) && Follows(t[m..])
  {
    hide ReadHead, ReadValue, LineLength;
    var m := BlockEnd(UnitOf(t, w, lineStart)) - w;
    if t[0] == HASH {
      assert !IsBreak(HASH);
    } else {
      var at := ReadHead(t).valueStart;
      HeadEnds(t);
      ValueEnds(t[at..]);
      assert t[at..][m - at..] == t[m..];
      assert m > at ==> t[at..][m - at - 1] == t[m - 1];
    }
  }

  lemma HeadEnds(x: Bytes)
    requires ReadHead(x).Head?
    ensures !IsBreak(x[ReadHead(x).valueStart - 1])
  {
    hide Trim, ValidSourceKey, KeyStart;
    var r := x[KeyStart(x)..];
    var m := KeyLength(r);
    var n := HorizontalLength(r[m + 1..]);
    assert n > 0 ==> IsHorizontal(r[m + 1..][n - 1]);
    assert r[m + n] == x[KeyStart(x) + m + n];
  }

  lemma ValueEnds(v: Bytes)
    requires ReadValue(v).Value?
    ensures Follows(v[ReadValue(v).blockEnd..])
    ensures ReadValue(v).blockEnd > 0 ==> !IsBreak(v[ReadValue(v).blockEnd - 1])
  {
    hide HasExpansion, Trailer, CloseAt, TrimmedEnd, CommentAt, LineLength;
    if v != [] && !IsBreak(v[0]) && IsQuote(v[0]) {
      var c := CloseAt(v, v[0], 1);
      var r := v[c + 1..];
      TrailerEnds(r);
      var n := Trailer(r).value;
      assert r[n..] == v[c + 1 + n..];
      assert n > 0 ==> r[n - 1] == v[c + n];
    }
  }

  lemma TrailerEnds(r: Bytes)
    requires Trailer(r).Some?
    ensures Follows(r[Trailer(r).value..])
    ensures Trailer(r).value > 0 ==> !IsBreak(r[Trailer(r).value - 1])
  {
    hide LineLength, HorizontalLength;
    var t := HorizontalLength(r);
    var m := LineLength(r[t..]);
    assert m > 0 ==> !IsBreak(r[t..][m - 1]);
    assert m < |r[t..]| ==> IsBreak(r[t..][m]);
    assert t > 0 ==> IsHorizontal(r[t - 1]);
  }

  // ---------- items ----------

  /** x and y may be read one after the other. */
  predicate Meets(x: Bytes, y: Bytes) {
    x == [] || IsBreak(x[|x| - 1]) || Follows(y)
  }

  /** u, k bytes further on. */
  function Moved(u: Unit, k: nat, lineStart: nat): Unit {
    match u
    case Comment(n) => Comment(k + n)
    case Entry(key, _, valueStart, valueEnd, blockEnd, expansion) =>
      Entry(key, lineStart, k + valueStart, k + valueEnd, k + blockEnd, expansion)
    case _ => u
  }

  lemma UnitOfMoved(t: Bytes, w: nat, lineStart: nat, k: nat, lineStart': nat)
    requires t != [] && lineStart <= w && lineStart' <= k + w
    ensures UnitOf(t, k + w, lineStart') == Moved(UnitOf(t, w, lineStart), k, lineStart')
  {
    hide ReadHead, ReadValue, LineLength;
  }

  /** White space in front moves a unit and changes nothing else of it. */
  lemma UnitAfterSpace(x: Bytes, y: Bytes)
    requires SpaceLength(x) == |x|
    ensures NextUnit(x + y) == Moved(NextUnit(y), |x|, LineStart(x + y, |x| + SpaceLength(y)))
  {
    hide UnitOf, LineStart, SpaceLength;
    SpaceJoin(x, y);
    var w := SpaceLength(y);
    assert (x + y)[|x| + w..] == y[w..];
    if w < |y| {
      UnitOfMoved(y[w..], w, LineStart(y, w), |x|, LineStart(x + y, |x| + w));
    }
  }

  lemma ItemsOfSpace(x: Bytes, y: Bytes)
    requires SpaceLength(x) == |x|
    ensures Items(x) == Some([]) && Items(x + y) == Items(y)
  {
    UnitOfSpace(x);
    hide NextUnit, SpaceLength, LineStart;
    UnitAfterSpace(x, y);
    var u, z := NextUnit(y), NextUnit(x + y);
    if u.Comment? {
      assert (x + y)[z.end..] == y[u.end..];
    } else if u.Entry? {
      assert (x + y)[z.blockEnd..] == y[u.blockEnd..];
      assert (x + y)[z.valueStart..z.valueEnd] == y[u.valueStart..u.valueEnd];
    }
  }

  lemma UnitOfSpace(x: Bytes)
    ensures NextUnit(x).Blank? <==> SpaceLength(x) == |x|
  {
    hide ReadHead, ReadValue, LineStart;
  }

  /** The items of two texts that meet are the items of the one and then of the other. */
  lemma {:induction false} ItemsConcat(x: Bytes, y: Bytes)
    requires Items(x).Some? && Items(y).Some? && Meets(x, y)
    ensures Items(x + y) == Some(Items(x).value + Items(y).value)
    decreases |x|
  {
    hide NextUnit;
    var u := NextUnit(x);
    if u.Blank? {
      UnitOfSpace(x);
      ItemsOfSpace(x, y);
      assert [] + Items(y).value == Items(y).value;
    } else {
      var n := BlockEnd(u);
      UnitEnds(x);
      UnitJoin(x, y);
      assert (x + y)[n..] == x[n..] + y;
      ItemsConcat(x[n..], y);
      if u.Entry? {
        assert UnitItem(x + y, u) == UnitItem(x, u) by {
          assert (x + y)[u.valueStart..u.valueEnd] == x[u.valueStart..u.valueEnd];
        }
        var a, b := Items(x[n..]).value, Items(y).value;
        assert [UnitItem(x, u)] + a + b == [UnitItem(x, u)] + (a + b);
      }
    }
  }

  /** One block, alone. */
  lemma ItemsOfBlock(d: Bytes)
    requires var u := NextUnit(d); u.Entry? || u.Comment?
    ensures var u := NextUnit(d); Items(d[..BlockEnd(u)]) == Some(if u.Entry? then [UnitItem(d, u)] else [])
  {
    hide NextUnit;
    var u := NextUnit(d);
    var n := BlockEnd(u);
    UnitCut(d);
    assert d[..n][n..] == [];
    EmptyIsBlank();
    if u.Entry? {
      assert d[..n][u.valueStart..u.valueEnd] == d[u.valueStart..u.valueEnd];
      assert UnitItem(d[..n], u) == UnitItem(d, u);
      assert [UnitItem(d, u)] + [] == [UnitItem(d, u)];
    }
  }

  lemma EmptyIsBlank()
    ensures NextUnit([]).Blank? && Items([]) == Some([])
  {
  }
}
