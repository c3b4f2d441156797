/** Reconciling the certificates a native run reports with the files that were audited. */
module CertificateInventory {
  import opened ByteStrings
  import opened KeyOrder

  /** What is known of an audited file. */
  type Metadata = nat

  datatype Candidate = Candidate(name: Bytes, domains: seq<Bytes>, issuer: Bytes, expiration: Bytes,
                                 expired: Option<bool>, path: Bytes)

  datatype Certificate = Certificate(name: Bytes, dnsNames: seq<Bytes>, issuer: Bytes, expiresAt: int,
                                     nativePath: Bytes, artifact: Metadata)

  datatype Code = MalformedOutput | PathOutsideStorage | Duplicate

  datatype Result<+T> = Ok(value: T) | Err(code: Code)

  /** Checks of one text at a time: bounds and runes of its names, canonical paths, the expiration format. */
  datatype Checks = Checks(texts: Candidate -> Option<Code>, canonical: Bytes -> bool, expiration: Bytes -> Option<int>)

  const SLASH: Byte := 47
  const CRT: Bytes := Ascii(".crt")

  /** A path under the root. */
  predicate Below(root: Bytes, path: Bytes) { root + [SLASH] <= path }

  /** The bytes behind the last slash. */
  function BaseName(path: Bytes): Bytes {
    if path == [] || path[|path| - 1] == SLASH then [] else BaseName(path[..|path| - 1]) + [path[|path| - 1]]
  }

  /** The path is the native file of a certificate of that name. */
  predicate NamedBy(path: Bytes, name: Bytes) { BaseName(path) == name + CRT }

  /** Why a candidate alone is refused, the checks being made in this order. */
  function Fault(c: Candidate, expected: map<Bytes, Metadata>, root: Bytes, checks: Checks): Option<Code> {
    var texts := checks.texts(c);
    if texts.Some? then texts
    else if c.expired.None? || !checks.canonical(c.path) then Some(MalformedOutput)
    else if !Below(root, c.path) then Some(PathOutsideStorage)
    else if !IsSuffix(CRT, c.path) || !NamedBy(c.path, c.name) || c.path !in expected then Some(MalformedOutput)
    else None
  }

  function CertificateOf(c: Candidate, expected: map<Bytes, Metadata>, checks: Checks): Certificate
    requires c.path in expected && checks.expiration(c.expiration).Some?
  {
    Certificate(c.name, c.domains, c.issuer, checks.expiration(c.expiration).value, c.path, expected[c.path])
  }

  /** Every candidate is sound, and none shares its path or its name with another. */
  predicate Consistent(upstream: seq<Candidate>, expected: map<Bytes, Metadata>, root: Bytes, checks: Checks) {
    && (forall i :: 0 <= i < |upstream| ==>
          Fault(upstream[i], expected, root, checks).None? && checks.expiration(upstream[i].expiration).Some?)
    && forall i, j :: 0 <= i < j < |upstream| ==>
         upstream[i].path != upstream[j].path && upstream[i].name != upstream[j].name
  }

  /** Candidate i is the first that is refused, and why. */
  predicate FailsAt(upstream: seq<Candidate>, expected: map<Bytes, Metadata>, root: Bytes, checks: Checks, i: int, code: Code) {
    && 0 <= i < |upstream| && Consistent(upstream[..i], expected, root, checks)
    && var c := upstream[i];
       var alone := Fault(c, expected, root, checks);
       if alone.Some? then code == alone.value
       else if exists j :: 0 <= j < i && (upstream[j].path == c.path || upstream[j].name == c.name) then code == Duplicate
       else checks.expiration(c.expiration).None? && code == MalformedOutput
  }

  /** x is the certificate of c. */
  predicate Certifies(x: Certificate, c: Candidate, expected: map<Bytes, Metadata>, checks: Checks) {
    c.path in expected && checks.expiration(c.expiration).Some? && x == CertificateOf(c, expected, checks)
  }

  ghost predicate IsCertified(certificates: seq<Certificate>, c: Candidate, expected: map<Bytes, Metadata>, checks: Checks) {
    exists i :: 0 <= i < |certificates| && Certifies(certificates[i], c, expected, checks)
  }

  /** A certificate for each candidate, in whatever order. */
  ghost predicate Covers(certificates: seq<Certificate>, upstream: seq<Candidate>, expected: map<Bytes, Metadata>,
                         checks: Checks)
  {
    && |certificates| == |upstream|
    && (forall x :: x in certificates ==> exists i :: 0 <= i < |upstream| && Certifies(x, upstream[i], expected, checks))
    && (forall i :: 0 <= i < |upstream| ==> IsCertified(certificates, upstream[i], expected, checks))
  }

  predicate PathsAscend(s: seq<Certificate>) {
    forall i, j :: 0 <= i < j < |s| ==> !Less(s[j].nativePath, s[i].nativePath)
  }

  method InsertByPath(x: Certificate, s: seq<Certificate>) returns (r: seq<Certificate>)
    requires PathsAscend(s)
    ensures multiset(r) == multiset(s) + multiset{x} && PathsAscend(r)
  {
    hide Less, PathsAscend;
    var j := 0;
    while j < |s| && Less(s[j].nativePath, x.nativePath)
      invariant 0 <= j <= |s|
      invariant forall k :: 0 <= k < j ==> Less(s[k].nativePath, x.nativePath)
    {
      j := j + 1;
    }
    InsertAscends(x, s, j);
    assert s == s[..j] + s[j..];
    return s[..j] + [x] + s[j..];
  }

  lemma InsertAscends(x: Certificate, s: seq<Certificate>, j: nat)
    requires PathsAscend(s) && j <= |s| && (forall k :: 0 <= k < j ==> Less(s[k].nativePath, x.nativePath))
    requires j < |s| ==> !Less(s[j].nativePath, x.nativePath)
    ensures PathsAscend(s[..j] + [x] + s[j..])
  {
    hide Less;
    var r := s[..j] + [x] + s[j..];
    forall k | 0 <= k < |s|
      ensures k < j ==> !Less(x.nativePath, s[k].nativePath)
      ensures k >= j ==> !Less(s[k].nativePath, x.nativePath)
    {
      LessTotal(x.nativePath, s[k].nativePath);
      if k > j {
        NotLessChain(s[j].nativePath, s[k].nativePath, x.nativePath);
      }
    }
    assert forall k :: 0 <= k < |r| ==> r[k] == if k < j then s[k] else if k == j then x else s[k - 1];
  }

  method SortByPath(s: seq<Certificate>) returns (sorted: seq<Certificate>)
    ensures multiset(sorted) == multiset(s) && PathsAscend(sorted)
  {
    sorted := [];
    for i := 0 to |s|
      invariant multiset(sorted) == multiset(s[..i]) && PathsAscend(sorted)
    {
      assert s[..i + 1] == s[..i] + [s[i]];
      sorted := InsertByPath(s[i], sorted);
    }
    assert s[..|s|] == s;
  }

  /** Decides about each reported certificate in turn, then sorts what it has. */
  method DecodeInventory(upstream: seq<Candidate>, expected: map<Bytes, Metadata>, root: Bytes, checks: Checks)
    returns (r: Result<seq<Certificate>>)
    ensures r.Ok? <==> |upstream| == |expected| && Consistent(upstream, expected, root, checks)
    ensures r.Ok? ==> PathsAscend(r.value) && Covers(r.value, upstream, expected, checks)
    ensures r.Err? && |upstream| != |expected| ==> r.code == MalformedOutput
    ensures r.Err? && |upstream| == |expected| ==> exists i :: FailsAt(upstream, expected, root, checks, i, r.code)
  {
    hide Less, PathsAscend, Fault;
    if |upstream| != |expected| {
      return Err(MalformedOutput);
    }
    var certificates: seq<Certificate>, seenPaths: set<Bytes>, seenNames: set<Bytes> := [], {}, {};
    for i := 0 to |upstream|
      invariant Consistent(upstream[..i], expected, root, checks)
      invariant |certificates| == i
      invariant forall j :: 0 <= j < i ==> Certifies(certificates[j], upstream[j], expected, checks)
      invariant forall p :: p in seenPaths <==> exists j :: 0 <= j < i && upstream[j].path == p
      invariant forall n :: n in seenNames <==> exists j :: 0 <= j < i && upstream[j].name == n
    {
      var c := upstream[i];
      if Fault(c, expected, root, checks).Some? {
        assert FailsAt(upstream, expected, root, checks, i, Fault(c, expected, root, checks).value);
        return Err(Fault(c, expected, root, checks).value);
      }
      FaultlessIsExpected(c, expected, root, checks);
      if c.path in seenPaths {
        assert FailsAt(upstream, expected, root, checks, i, Duplicate);
        return Err(Duplicate);
      }
      seenPaths := seenPaths + {c.path};
      if c.name in seenNames {
        assert FailsAt(upstream, expected, root, checks, i, Duplicate);
        return Err(Duplicate);
      }
      seenNames := seenNames + {c.name};
      var expiresAt := checks.expiration(c.expiration);
      if expiresAt.None? {
        assert FailsAt(upstream, expected, root, checks, i, MalformedOutput);
        return Err(MalformedOutput);
      }
      certificates := certificates + [CertificateOf(c, expected, checks)];
    }
    assert upstream[..|upstream|] == upstream;
    var sorted := SortByPath(certificates);
    SortedCovers(certificates, sorted, upstream, expected, checks);
    return Ok(sorted);
  }

  lemma FaultlessIsExpected(c: Candidate, expected: map<Bytes, Metadata>, root: Bytes, checks: Checks)
    requires Fault(c, expected, root, checks).None?
    ensures c.path in expected
  {
  }

  lemma SortedCovers(certificates: seq<Certificate>, sorted: seq<Certificate>, upstream: seq<Candidate>,
                     expected: map<Bytes, Metadata>, checks: Checks)
    requires multiset(sorted) == multiset(certificates) && |certificates| == |upstream|
    requires forall j :: 0 <= j < |upstream| ==> Certifies(certificates[j], upstream[j], expected, checks)
    ensures Covers(sorted, upstream, expected, checks)
  {
    hide Certifies;
    assert |sorted| == |multiset(sorted)| == |multiset(certificates)| == |certificates|;
    forall x ensures x in sorted <==> x in certificates {
      assert x in sorted <==> x in multiset(sorted);
      assert x in certificates <==> x in multiset(certificates);
    }
    forall i | 0 <= i < |upstream| ensures IsCertified(sorted, upstream[i], expected, checks) {
      assert certificates[i] in sorted;
      var k :| 0 <= k < |sorted| && sorted[k] == certificates[i];
    }
    forall x | x in sorted ensures exists i :: 0 <= i < |upstream| && Certifies(x, upstream[i], expected, checks) {
      var i :| 0 <= i < |certificates| && certificates[i] == x;
    }
  }

  // ---------- what a success means ----------

  lemma {:induction false} DistinctPaths(s: seq<Bytes>, all: set<Bytes>)
    requires AllDiffer(s) && (forall i :: 0 <= i < |s| ==> s[i] in all) && |s| == |all|
    ensures forall p :: p in all ==> p in s
  {
    if s == [] {
      assert all == {};
    } else {
      var n := |s| - 1;
      var init := s[..n];
      forall i | 0 <= i < n ensures init[i] in all - {s[n]} {}
      DistinctPaths(init, all - {s[n]});
      forall p | p in all ensures p in s {
        if p != s[n] {
          assert p in init;
        } else {
          assert s[n] in s;
        }
      }
    }
  }

  /** Where the certificate of a candidate is. */
  lemma CertificateAt(upstream: seq<Candidate>, expected: map<Bytes, Metadata>, checks: Checks,
                      certificates: seq<Certificate>, i: nat) returns (k: nat)
    requires Covers(certificates, upstream, expected, checks) && i < |upstream|
    ensures k < |certificates| && certificates[k].nativePath == upstream[i].path && upstream[i].path in expected
  {
    assert IsCertified(certificates, upstream[i], expected, checks);
    k :| 0 <= k < |certificates| && Certifies(certificates[k], upstream[i], expected, checks);
  }

  lemma EveryPathThere(upstream: seq<Candidate>, expected: map<Bytes, Metadata>, checks: Checks,
                       certificates: seq<Certificate>)
    requires |upstream| == |expected| && Covers(certificates, upstream, expected, checks)
    requires forall i, j :: 0 <= i < j < |upstream| ==> upstream[i].path != upstream[j].path
    ensures forall p :: p in expected ==> exists i :: 0 <= i < |certificates| && certificates[i].nativePath == p
  {
    hide Covers, Certifies;
    var paths := seq(|upstream|, i requires 0 <= i < |upstream| => upstream[i].path);
    forall i | 0 <= i < |paths| ensures paths[i] in expected.Keys {
      var k := CertificateAt(upstream, expected, checks, certificates, i);
    }
    assert |expected| == |expected.Keys|;
    DistinctPaths(paths, expected.Keys);
    forall p | p in expected ensures exists i :: 0 <= i < |certificates| && certificates[i].nativePath == p {
      assert p in paths;
      var j :| 0 <= j < |paths| && paths[j] == p;
      var k := CertificateAt(upstream, expected, checks, certificates, j);
    }
  }

  /**
   When decoding succeeds, the result has exactly the audited paths, each once and in strictly ascending order,
   each with what was audited of it: equal counts, membership and distinct paths leave no other way.
   */
  lemma ReconciledExactly(upstream: seq<Candidate>, expected: map<Bytes, Metadata>, root: Bytes, checks: Checks,
                          certificates: seq<Certificate>)
    requires |upstream| == |expected| && Consistent(upstream, expected, root, checks)
    requires PathsAscend(certificates) && Covers(certificates, upstream, expected, checks)
    ensures forall i, j :: 0 <= i < j < |certificates| ==> Less(certificates[i].nativePath, certificates[j].nativePath)
    ensures forall p :: p in expected <==> exists i :: 0 <= i < |certificates| && certificates[i].nativePath == p
    ensures forall i :: 0 <= i < |certificates| ==>
              certificates[i].nativePath in expected && certificates[i].artifact == expected[certificates[i].nativePath]
              && NamedBy(certificates[i].nativePath, certificates[i].name)
  {
    hide Less, NamedBy, Fault;
    EveryPathThere(upstream, expected, checks, certificates);
    PathsDiffer(upstream, expected, checks, certificates);
    forall i | 0 <= i < |certificates|
      ensures certificates[i].nativePath in expected && certificates[i].artifact == expected[certificates[i].nativePath]
      ensures NamedBy(certificates[i].nativePath, certificates[i].name)
    {
      assert certificates[i] in certificates;
      var j :| 0 <= j < |upstream| && Certifies(certificates[i], upstream[j], expected, checks);
      FaultlessIsNamed(upstream[j], expected, root, checks);
    }
    hide Covers;
    forall i, j | 0 <= i < j < |certificates| ensures Less(certificates[i].nativePath, certificates[j].nativePath) {
      LessTotal(certificates[i].nativePath, certificates[j].nativePath);
    }
  }

  lemma FaultlessIsNamed(c: Candidate, expected: map<Bytes, Metadata>, root: Bytes, checks: Checks)
    requires Fault(c, expected, root, checks).None?
    ensures c.path in expected && NamedBy(c.path, c.name)
  {
    hide NamedBy;
  }

  /** As many certificates as candidates with distinct paths: no path is there twice. */
  lemma PathsDiffer(upstream: seq<Candidate>, expected: map<Bytes, Metadata>, checks: Checks, certificates: seq<Certificate>)
    requires Covers(certificates, upstream, expected, checks)
    requires forall i, j :: 0 <= i < j < |upstream| ==> upstream[i].path != upstream[j].path
    ensures forall i, j :: 0 <= i < j < |certificates| ==> certificates[i].nativePath != certificates[j].nativePath
  {
    var paths := seq(|upstream|, i requires 0 <= i < |upstream| => upstream[i].path);
    var natives := seq(|certificates|, i requires 0 <= i < |certificates| => certificates[i].nativePath);
    forall i | 0 <= i < |paths| ensures paths[i] in natives {
      var k := CertificateAt(upstream, expected, checks, certificates, i);
      assert natives[k] == paths[i];
    }
    Pigeonhole(paths, natives);
    assert AllDiffer(natives);
    forall i, j | 0 <= i < j < |certificates| ensures certificates[i].nativePath != certificates[j].nativePath {
      assert natives[i] != natives[j];
    }
  }

  /** As many places as distinct values that all occur: each occurs once. */
  lemma Pigeonhole(values: seq<Bytes>, places: seq<Bytes>)
    requires AllDiffer(values) && |values| == |places| && forall i :: 0 <= i < |values| ==> values[i] in places
    ensures AllDiffer(places)
  {
    forall i, j | 0 <= i < j < |places| ensures places[i] != places[j] {
      if places[i] == places[j] {
        var rest := places[..j] + places[j + 1..];
        forall k | 0 <= k < |values| ensures values[k] in rest {
          var m :| 0 <= m < |places| && places[m] == values[k];
          var m' := if m == j then i else m;
          assert rest[if m' < j then m' else m' - 1] == values[k];
        }
        TooFewPlaces(values, rest);
      }
    }
  }

  lemma {:induction false} TooFewPlaces(values: seq<Bytes>, places: seq<Bytes>)
    requires AllDiffer(values) && forall i :: 0 <= i < |values| ==> values[i] in places
    ensures |values| <= |places|
  {
    if values != [] {
      var n := |values| - 1;
      var m :| 0 <= m < |places| && places[m] == values[n];
      var rest := places[..m] + places[m + 1..];
      forall k | 0 <= k < n ensures values[..n][k] in rest {
        var l :| 0 <= l < |places| && places[l] == values[k];
        assert l != m;
        assert rest[if l < m then l else l - 1] == values[k];
      }
      TooFewPlaces(values[..n], rest);
    }
  }

  // ---------- what is refused ----------

  ghost predicate Under(root: Bytes, path: Bytes) { exists rest :: path == root + [SLASH] + rest }

  /** The path ends with the name as a file name, behind a directory. */
  ghost predicate IsFile(path: Bytes, name: Bytes) {
    SLASH !in name && exists directory :: path == directory + [SLASH] + (name + CRT)
  }

  lemma {:induction false} BaseNameIs(directory: Bytes, name: Bytes)
    requires SLASH !in name
    ensures BaseName(directory + [SLASH] + name) == name
  {
    var path := directory + [SLASH] + name;
    if name == [] {
      assert path[|path| - 1] == SLASH;
    } else {
      var n := |name| - 1;
      assert path[..|path| - 1] == directory + [SLASH] + name[..n];
      BaseNameIs(directory, name[..n]);
      assert name[..n] + [name[n]] == name && path[|path| - 1] == name[n];
    }
  }

  lemma {:induction false} BaseNameBehind(path: Bytes) returns (directory: Bytes)
    requires SLASH in path
    ensures SLASH !in BaseName(path) && path == directory + [SLASH] + BaseName(path)
  {
    var n := |path| - 1;
    if path[n] == SLASH {
      directory := path[..n];
    } else {
      directory := BaseNameBehind(path[..n]);
      assert path == path[..n] + [path[n]];
    }
  }

  lemma NamedIff(path: Bytes, name: Bytes)
    requires SLASH in path
    ensures NamedBy(path, name) <==> IsFile(path, name)
  {
    hide BaseName;
    CrtHasNoSlash();
    if NamedBy(path, name) {
      var directory := BaseNameBehind(path);
      forall i | 0 <= i < |name| ensures name[i] != SLASH {
        assert (name + CRT)[i] == name[i];
      }
    }
    if IsFile(path, name) {
      var directory :| path == directory + [SLASH] + (name + CRT);
      BaseNameIs(directory, name + CRT);
    }
  }

  lemma CrtHasNoSlash()
    ensures SLASH !in CRT
  {
  }

  /** Nothing is wrong with the candidate alone. */
  ghost predicate Sound(c: Candidate, expected: map<Bytes, Metadata>, root: Bytes, checks: Checks) {
    && checks.texts(c).None? && c.expired.Some? && checks.canonical(c.path) && checks.expiration(c.expiration).Some?
    && Under(root, c.path) && IsFile(c.path, c.name) && c.path in expected
  }

  lemma BelowIff(root: Bytes, path: Bytes)
    ensures Below(root, path) <==> Under(root, path)
    ensures Below(root, path) ==> SLASH in path
  {
    if Below(root, path) {
      assert path == root + [SLASH] + path[|root| + 1..];
      assert path[|root|] == SLASH;
    }
  }

  lemma NamedHasSuffix(path: Bytes, name: Bytes)
    requires IsFile(path, name)
    ensures IsSuffix(CRT, path)
  {
    hide IsSuffix;
    var directory :| path == directory + [SLASH] + (name + CRT);
    assert path[|path| - |CRT|..] == CRT;
    SuffixIs(CRT, path);
  }

  lemma SuffixIs(s: Bytes, path: Bytes)
    requires |s| <= |path| && path[|path| - |s|..] == s
    ensures IsSuffix(s, path)
  {
  }

  lemma SoundIff(c: Candidate, expected: map<Bytes, Metadata>, root: Bytes, checks: Checks)
    ensures Sound(c, expected, root, checks) <==>
              Fault(c, expected, root, checks).None? && checks.expiration(c.expiration).Some?
  {
    hide Below, NamedBy, IsFile, Under, IsSuffix;
    BelowIff(root, c.path);
    if Below(root, c.path) {
      NamedIff(c.path, c.name);
      if IsFile(c.path, c.name) {
        NamedHasSuffix(c.path, c.name);
      }
    }
  }

  /**
   Decoding succeeds exactly when as many certificates were reported as were audited, each of them alone is sound, and
   no two share a path or a name.
   */
  lemma ConsistentIff(upstream: seq<Candidate>, expected: map<Bytes, Metadata>, root: Bytes, checks: Checks)
    ensures Consistent(upstream, expected, root, checks) <==>
              && (forall i :: 0 <= i < |upstream| ==> Sound(upstream[i], expected, root, checks))
              && forall i, j :: 0 <= i < j < |upstream| ==>
                   upstream[i].path != upstream[j].path && upstream[i].name != upstream[j].name
  {
    hide Fault, Sound;
    forall i | 0 <= i < |upstream|
      ensures Sound(upstream[i], expected, root, checks) <==>
                Fault(upstream[i], expected, root, checks).None? && checks.expiration(upstream[i].expiration).Some?
    {
      SoundIff(upstream[i], expected, root, checks);
    }
  }

  /** A refusal of a candidate with proper texts: outside the storage, a second time there, or otherwise malformed. */
  lemma RefusalMeans(upstream: seq<Candidate>, expected: map<Bytes, Metadata>, root: Bytes, checks: Checks, i: int, code: Code)
    requires FailsAt(upstream, expected, root, checks, i, code) && checks.texts(upstream[i]).None?
    ensures code == PathOutsideStorage <==>
              upstream[i].expired.Some? && checks.canonical(upstream[i].path) && !Under(root, upstream[i].path)
    ensures code == Duplicate <==>
              && upstream[i].expired.Some? && checks.canonical(upstream[i].path) && Under(root, upstream[i].path)
              && IsFile(upstream[i].path, upstream[i].name) && upstream[i].path in expected
              && exists j :: 0 <= j < i && (upstream[j].path == upstream[i].path || upstream[j].name == upstream[i].name)
  {
    hide Below, NamedBy, IsFile, Under, IsSuffix, Consistent;
    var c := upstream[i];
    BelowIff(root, c.path);
    if Below(root, c.path) {
      NamedIff(c.path, c.name);
      if IsFile(c.path, c.name) {
        NamedHasSuffix(c.path, c.name);
      }
    }
  }

  /** Each certificate of the result tells what was reported of its path, and what was audited. */
  lemma ReconciledFields(upstream: seq<Candidate>, expected: map<Bytes, Metadata>, root: Bytes, checks: Checks,
                         certificates: seq<Certificate>, i: nat) returns (k: nat)
    requires Consistent(upstream, expected, root, checks) && Covers(certificates, upstream, expected, checks)
    requires i < |upstream|
    ensures k < |certificates| && upstream[i].path in expected
    ensures var x, c := certificates[k], upstream[i];
            && x.name == c.name && x.dnsNames == c.domains && x.issuer == c.issuer && x.nativePath == c.path
            && Some(x.expiresAt) == checks.expiration(c.expiration) && x.artifact == expected[c.path]
    ensures Under(root, certificates[k].nativePath) && IsFile(certificates[k].nativePath, certificates[k].name)
  {
    hide Fault, Under, IsFile;
    assert IsCertified(certificates, upstream[i], expected, checks);
    k :| 0 <= k < |certificates| && Certifies(certificates[k], upstream[i], expected, checks);
    SoundIff(upstream[i], expected, root, checks);
  }
}
