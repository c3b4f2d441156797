/** The order of keys, as string sorting has it. */
module KeyOrder {
  import opened ByteStrings

  predicate Less(a: Bytes, b: Bytes) {
    b != [] && (a == [] || a[0] < b[0] || (a[0] == b[0] && Less(a[1..], b[1..])))
  }

  lemma {:induction false} LessTotal(a: Bytes, b: Bytes)
    ensures Less(a, b) || Less(b, a) || a == b
    ensures !(Less(a, b) && Less(b, a)) && !Less(a, a)
  {
    if a != [] && b != [] {
      LessTotal(a[1..], b[1..]);
      LessTotal(a[1..], a[1..]);
      assert a == [a[0]] + a[1..] && b == [b[0]] + b[1..];
    } else if a != [] {
      LessTotal(a[1..], a[1..]);
    }
  }

  /** At place i the texts differ for the first time, and a has the smaller byte there. */
  predicate Differs(a: Bytes, b: Bytes, i: int) {
    0 <= i < |a| && i < |b| && a[..i] == b[..i] && a[i] < b[i]
  }

  lemma DiffersTail(a: Bytes, b: Bytes, i: int)
    requires a != [] && b != [] && a[0] == b[0]
    ensures Differs(a, b, i) ==> Differs(a[1..], b[1..], i - 1)
    ensures Differs(a[1..], b[1..], i) ==> Differs(a, b, i + 1)
  {
    if Differs(a, b, i) {
      assert a[1..][..i - 1] == a[..i][1..] && b[1..][..i - 1] == b[..i][1..];
    }
    if Differs(a[1..], b[1..], i) {
      assert a[..i + 1] == [a[0]] + a[1..][..i] && b[..i + 1] == [b[0]] + b[1..][..i];
    }
  }

  lemma DiffersFirst(a: Bytes, b: Bytes, i: int)
    requires a != [] && b != [] && a[0] != b[0]
    ensures Differs(a, b, i) <==> i == 0 && a[0] < b[0]
  {
    if Differs(a, b, i) && i > 0 {
      assert a[..i][0] == b[..i][0];
    }
    assert a[..0] == b[..0];
  }

  lemma PrefixTail(a: Bytes, b: Bytes)
    requires a != [] && b != []
    ensures a <= b <==> a[0] == b[0] && a[1..] <= b[1..]
  {
    assert a == [a[0]] + a[1..] && b == [b[0]] + b[1..];
  }

  /** The first difference decides, and a prefix comes before what it begins. */
  lemma {:induction false} LessIff(a: Bytes, b: Bytes)
    ensures Less(a, b) <==> (a <= b && a != b) || exists i :: Differs(a, b, i)
  {
    hide Differs;
    if a == [] || b == [] {
      NothingDiffers(a, b);
    } else {
      LessIff(a[1..], b[1..]);
      PrefixTail(a, b);
      assert a == [a[0]] + a[1..] && b == [b[0]] + b[1..];
      if a[0] == b[0] {
        if i :| Differs(a, b, i) {
          DiffersTail(a, b, i);
        }
        if i :| Differs(a[1..], b[1..], i) {
          DiffersTail(a, b, i);
        }
      } else {
        DiffersFirst(a, b, 0);
        if i :| Differs(a, b, i) {
          DiffersFirst(a, b, i);
        }
      }
    }
  }

  lemma NothingDiffers(a: Bytes, b: Bytes)
    requires a == [] || b == []
    ensures forall i :: !Differs(a, b, i)
  {
  }

  lemma {:induction false} LessTransitive(a: Bytes, b: Bytes, c: Bytes)
    requires Less(a, b) && Less(b, c)
    ensures Less(a, c)
  {
    if a != [] && a[0] == b[0] == c[0] {
      LessTransitive(a[1..], b[1..], c[1..]);
    }
  }

  /** What is not less than a key that is not less is not less. */
  lemma NotLessChain(a: Bytes, b: Bytes, x: Bytes)
    requires !Less(b, a) && !Less(a, x)
    ensures !Less(b, x)
  {
    LessTotal(a, x);
    LessTotal(a, b);
    if Less(b, x) && Less(x, a) {
      LessTransitive(b, x, a);
    }
  }

  /** No key stands in front of a smaller one. */
  predicate Ascending(s: seq<Bytes>) {
    forall i, j :: 0 <= i < j < |s| ==> !Less(s[j], s[i])
  }

  function Insert(x: Bytes, s: seq<Bytes>): (r: seq<Bytes>)
    ensures multiset(r) == multiset(s) + multiset{x}
  {
    if s == [] || !Less(s[0], x) then [x] + s
    else
      assert s == [s[0]] + s[1..];
      [s[0]] + Insert(x, s[1..])
  }

  /** String sorting: the library's sort of the keys. */
  function SortKeys(s: seq<Bytes>): (r: seq<Bytes>)
    ensures multiset(r) == multiset(s)
  {
    if s == [] then []
    else
      assert s == [s[0]] + s[1..];
      Insert(s[0], SortKeys(s[1..]))
  }

  lemma {:induction false} InsertAscends(x: Bytes, s: seq<Bytes>)
    requires Ascending(s)
    ensures Ascending(Insert(x, s))
  {
    var r := Insert(x, s);
    if s == [] {
    } else if !Less(s[0], x) {
      forall i, j | 0 <= i < j < |r| ensures !Less(r[j], r[i]) {
        if i == 0 && j > 1 {
          if Less(s[j - 1], x) {
            LessTotal(s[0], x);
            LessTotal(s[j - 1], s[0]);
            if s[0] != s[j - 1] && s[0] != x {
              LessTransitive(s[j - 1], x, s[0]);
            }
          }
        }
      }
    } else {
      InsertAscends(x, s[1..]);
      var t := Insert(x, s[1..]);
      forall y | y in t ensures !Less(y, s[0]) {
        assert y in multiset(t);
        assert y == x || y in s[1..];
        LessTotal(s[0], x);
      }
    }
  }

  lemma {:induction false} SortKeysAscends(s: seq<Bytes>)
    ensures Ascending(SortKeys(s))
  {
    if s != [] {
      SortKeysAscends(s[1..]);
      InsertAscends(s[0], SortKeys(s[1..]));
    }
  }

  lemma LeastFirst(a: seq<Bytes>, b: seq<Bytes>)
    requires Ascending(a) && Ascending(b) && multiset(a) == multiset(b) && a != [] && b != []
    ensures a[0] == b[0]
  {
    assert a[0] in multiset(b) && b[0] in multiset(a);
    var i :| 0 <= i < |b| && b[i] == a[0];
    var j :| 0 <= j < |a| && a[j] == b[0];
    LessTotal(a[0], b[0]);
  }

  /** Sorting leaves nothing open. */
  lemma {:induction false} AscendingUnique(a: seq<Bytes>, b: seq<Bytes>)
    requires Ascending(a) && Ascending(b) && multiset(a) == multiset(b)
    ensures a == b
    decreases |a|
  {
    hide Less;
    assert |a| == |multiset(a)| == |multiset(b)| == |b|;
    if a != [] {
      LeastFirst(a, b);
      assert a == [a[0]] + a[1..] && b == [b[0]] + b[1..];
      assert multiset(a[1..]) == multiset(a) - multiset{a[0]};
      AscendingUnique(a[1..], b[1..]);
    }
  }

  /** Sorted keys that differ from their neighbours all differ. */
  lemma NeighboursDiffer(s: seq<Bytes>)
    requires Ascending(s) && forall i :: 0 < i < |s| ==> s[i] != s[i - 1]
    ensures forall i, j :: 0 <= i < j < |s| ==> s[i] != s[j]
  {
    forall i, j | 0 <= i < j < |s| ensures s[i] != s[j] {
      LessTotal(s[i], s[i + 1]);
      assert s[i + 1] != s[i + 1 - 1];
      assert Less(s[i], s[i + 1]);
    }
  }

  lemma CountSplit(s: seq<Bytes>, k: Bytes)
    requires s != []
    ensures multiset(s)[k] == multiset(s[1..])[k] + if k == s[0] then 1 else 0
  {
    assert s == [s[0]] + s[1..];
  }

  lemma {:induction false} DifferOnce(s: seq<Bytes>, k: Bytes)
    requires AllDiffer(s) && k in s
    ensures multiset(s)[k] == 1
  {
    CountSplit(s, k);
    if k in s[1..] {
      DifferOnce(s[1..], k);
      var j :| 0 <= j < |s| - 1 && s[1..][j] == k;
      assert s[j + 1] == k;
    }
  }

  lemma OnceDiffer(s: seq<Bytes>, i: nat, j: nat)
    requires i < j < |s| && multiset(s)[s[i]] == 1
    ensures s[i] != s[j]
  {
    assert s == s[..j] + s[j..];
    assert s[i] in s[..j] && s[j] in s[j..];
    assert multiset(s)[s[i]] == multiset(s[..j])[s[i]] + multiset(s[j..])[s[i]];
  }

  lemma DifferCount(s: seq<Bytes>)
    ensures AllDiffer(s) <==> forall k :: k in s ==> multiset(s)[k] == 1
  {
    if AllDiffer(s) {
      forall k | k in s ensures multiset(s)[k] == 1 {
        DifferOnce(s, k);
      }
    }
    if forall k :: k in s ==> multiset(s)[k] == 1 {
      forall i, j | 0 <= i < j < |s| ensures s[i] != s[j] {
        OnceDiffer(s, i, j);
      }
    }
  }

  /** Whether keys repeat does not depend on their order. */
  lemma DifferPermuted(a: seq<Bytes>, b: seq<Bytes>)
    requires multiset(a) == multiset(b) && AllDiffer(a)
    ensures AllDiffer(b) && forall k :: k in a <==> k in b
  {
    DifferCount(a);
    DifferCount(b);
    forall k ensures k in a <==> k in b {
      assert k in a <==> k in multiset(a);
      assert k in b <==> k in multiset(b);
    }
  }

  /** The keys of a set in ascending order. */
  ghost function Arrange(s: set<Bytes>): (r: seq<Bytes>)
    ensures multiset(r) == multiset(s)
  {
    if s == {} then []
    else
      var x :| x in s;
      assert multiset(s) == multiset(s - {x}) + multiset{x};
      Insert(x, Arrange(s - {x}))
  }

  lemma {:induction false} ArrangeAscends(s: set<Bytes>)
    ensures Ascending(Arrange(s))
  {
    if s != {} {
      var x :| x in s && Arrange(s) == Insert(x, Arrange(s - {x}));
      ArrangeAscends(s - {x});
      InsertAscends(x, Arrange(s - {x}));
    }
  }

  lemma ArrangeHas(s: set<Bytes>)
    ensures AllDiffer(Arrange(s)) && forall k :: k in Arrange(s) <==> k in s
  {
    var r := Arrange(s);
    DifferCount(r);
    forall k ensures k in r <==> k in s {
      assert k in r <==> k in multiset(r);
    }
  }

  /** However the keys of a set were listed, sorting arranges them. */
  lemma SortArranges(listed: seq<Bytes>, s: set<Bytes>)
    requires multiset(listed) == multiset(s)
    ensures SortKeys(listed) == Arrange(s)
  {
    SortKeysAscends(listed);
    ArrangeAscends(s);
    AscendingUnique(SortKeys(listed), Arrange(s));
  }
}
