/** The byte stream that a preview token authenticates: no two different previews have the same one. */
module TokenStream {
  import opened ByteStrings
  import Decimal

  const LIMIT: nat := 0x1_0000_0000_0000_0000

  // ---------- frames ----------

  /** n in k bytes, the most significant first. */
  function BigEndian(n: nat, k: nat): (s: Bytes)
    ensures |s| == k
  {
    if k == 0 then [] else BigEndian(n / 256, k - 1) + [n % 256]
  }

  function Power(k: nat): nat { if k == 0 then 1 else 256 * Power(k - 1) }

  lemma {:induction false} BigEndianInjective(m: nat, n: nat, k: nat)
    requires BigEndian(m, k) == BigEndian(n, k) && m < Power(k) && n < Power(k)
    ensures m == n
  {
    if k > 0 {
      var a, b := BigEndian(m, k), BigEndian(n, k);
      assert a[..k - 1] == BigEndian(m / 256, k - 1) && b[..k - 1] == BigEndian(n / 256, k - 1);
      assert a[k - 1] == m % 256 && b[k - 1] == n % 256;
      BigEndianInjective(m / 256, n / 256, k - 1);
    }
  }

  lemma EightBytes()
    ensures Power(8) == LIMIT
  {
    assert Power(4) == 0x1_0000_0000;
  }

  /** A length in eight bytes, then the bytes. */
  function Frame(v: Bytes): Bytes { BigEndian(|v|, 8) + v }

  lemma FrameSplits(a: Bytes, b: Bytes, x: Bytes, y: Bytes)
    requires |a| < LIMIT && |b| < LIMIT && Frame(a) + x == Frame(b) + y
    ensures a == b && x == y
  {
    var s, t := Frame(a) + x, Frame(b) + y;
    assert s[..8] == BigEndian(|a|, 8) && t[..8] == BigEndian(|b|, 8);
    EightBytes();
    BigEndianInjective(|a|, |b|, 8);
    assert s[8..8 + |a|] == a && t[8..8 + |b|] == b;
    assert s[8 + |a|..] == x && t[8 + |b|..] == y;
  }

  function IntegerFrame(n: nat): Bytes { Frame(BigEndian(n, 8)) }

  lemma IntegerSplits(m: nat, n: nat, x: Bytes, y: Bytes)
    requires m < LIMIT && n < LIMIT && IntegerFrame(m) + x == IntegerFrame(n) + y
    ensures m == n && x == y
  {
    FrameSplits(BigEndian(m, 8), BigEndian(n, 8), x, y);
    EightBytes();
    BigEndianInjective(m, n, 8);
  }

  function BooleanFrame(b: bool): Bytes { IntegerFrame(if b then 1 else 0) }

  // ---------- what is written ----------

  /** A typed value; a removal carries none. */
  datatype Value = NoValue | Text(text: Bytes) | Boolean(flag: bool) | Integer(number: int) | TextList(items: seq<Bytes>)

  datatype Binding = Binding(id: Bytes, value: Bytes)

  datatype Change = Change(field: Bytes, operation: Bytes, bindings: seq<Binding>, value: Value)

  datatype Replacement = Replacement(role: Bytes, path: Bytes, content: Bytes)

  const DOMAIN: Bytes := Ascii("acmemux-native-preview-v1")

  function KindOf(v: Value): Bytes {
    match v
    case NoValue => []
    case Text(_) => Ascii("string")
    case Boolean(_) => Ascii("boolean")
    case Integer(_) => Ascii("integer")
    case TextList(_) => Ascii("string_list")
  }

  /** Frames one after the other. */
  function Frames(items: seq<Bytes>): Bytes {
    if items == [] then [] else Frames(items[..|items| - 1]) + Frame(items[|items| - 1])
  }

  function ContentStream(v: Value): Bytes {
    match v
    case NoValue => []
    case Text(text) => Frame(text)
    case Boolean(flag) => BooleanFrame(flag)
    case Integer(number) => Frame(Decimal.PrintSigned(number))
    case TextList(items) => IntegerFrame(|items|) + Frames(items)
  }

  function ValueStream(v: Value): Bytes { Frame(KindOf(v)) + ContentStream(v) }

  function Flat(bindings: seq<Binding>): seq<Bytes> {
    if bindings == [] then []
    else Flat(bindings[..|bindings| - 1]) + [bindings[|bindings| - 1].id, bindings[|bindings| - 1].value]
  }

  function ChangeStream(c: Change): Bytes {
    Frame(c.field) + Frame(c.operation) + IntegerFrame(|c.bindings|) + Frames(Flat(c.bindings)) + ValueStream(c.value)
  }

  function ChangesStream(changes: seq<Change>): Bytes {
    if changes == [] then [] else ChangesStream(changes[..|changes| - 1]) + ChangeStream(changes[|changes| - 1])
  }

  function FlatReplacements(r: seq<Replacement>): seq<Bytes> {
    if r == [] then []
    else FlatReplacements(r[..|r| - 1]) + [r[|r| - 1].role, r[|r| - 1].path, r[|r| - 1].content]
  }

  datatype Preview = Preview(base: Bytes, changes: seq<Change>, candidate: Bytes, replacements: seq<Replacement>)

  function PreviewStream(p: Preview): Bytes {
    Frame(DOMAIN) + Frame(p.base) + IntegerFrame(|p.changes|) + ChangesStream(p.changes) + Frame(p.candidate)
    + IntegerFrame(|p.replacements|) + Frames(FlatReplacements(p.replacements))
  }

  // ---------- the writer ----------

  class TokenWriter {
    var stream: Bytes

    constructor (domain: Bytes)
      ensures stream == Frame(domain)
    {
      stream := Frame(domain);
    }

    method WriteBytes(value: Bytes)
      modifies this
      ensures stream == old(stream) + Frame(value)
    {
      stream := stream + BigEndian(|value|, 8);
      stream := stream + value;
      assert stream == old(stream) + Frame(value);
    }

    method WriteInteger(n: nat)
      modifies this
      ensures stream == old(stream) + IntegerFrame(n)
    {
      WriteBytes(BigEndian(n, 8));
    }

    method WriteBoolean(b: bool)
      modifies this
      ensures stream == old(stream) + BooleanFrame(b)
    {
      if b {
        WriteInteger(1);
      } else {
        WriteInteger(0);
      }
    }

    method WriteValue(v: Value)
      modifies this
      ensures stream == old(stream) + ValueStream(v)
    {
      hide Frame, KindOf, IntegerFrame, Decimal.PrintSigned;
      ghost var start := stream;
      WriteBytes(KindOf(v));
      match v {
        case NoValue =>
        case Text(text) => WriteBytes(text);
        case Boolean(flag) => WriteBoolean(flag);
        case Integer(number) => WriteBytes(Decimal.PrintSigned(number));
        case TextList(items) =>
          WriteInteger(|items|);
          ghost var before := stream;
          for i := 0 to |items|
            invariant stream == before + Frames(items[..i])
          {
            assert items[..i + 1][..i] == items[..i];
            assert before + (Frames(items[..i]) + Frame(items[i])) == before + Frames(items[..i]) + Frame(items[i]);
            WriteBytes(items[i]);
          }
          assert items[..|items|] == items;
      }
      assert stream == start + ValueStream(v);
    }

    method WriteChange(c: Change)
      modifies this
      ensures stream == old(stream) + ChangeStream(c)
    {
      hide Frame, IntegerFrame, ValueStream;
      ghost var start := stream;
      WriteBytes(c.field);
      WriteBytes(c.operation);
      WriteInteger(|c.bindings|);
      ghost var before := stream;
      for i := 0 to |c.bindings|
        invariant stream == before + Frames(Flat(c.bindings[..i]))
      {
        var b := c.bindings[i];
        assert c.bindings[..i + 1][..i] == c.bindings[..i];
        FramesTwo(Flat(c.bindings[..i]), b.id, b.value);
        WriteBytes(b.id);
        WriteBytes(b.value);
        assert stream == before + (Frames(Flat(c.bindings[..i])) + Frame(b.id) + Frame(b.value));
      }
      assert c.bindings[..|c.bindings|] == c.bindings;
      WriteValue(c.value);
      assert stream == start + ChangeStream(c);
    }

    method WriteChanges(changes: seq<Change>)
      modifies this
      ensures stream == old(stream) + ChangesStream(changes)
    {
      hide ChangeStream;
      ghost var start := stream;
      for i := 0 to |changes|
        invariant stream == start + ChangesStream(changes[..i])
      {
        assert changes[..i + 1][..i] == changes[..i];
        WriteChange(changes[i]);
        assert stream == start + (ChangesStream(changes[..i]) + ChangeStream(changes[i]));
      }
      assert changes[..|changes|] == changes;
    }

    method WriteReplacements(replacements: seq<Replacement>)
      modifies this
      ensures stream == old(stream) + Frames(FlatReplacements(replacements))
    {
      hide Frame, Frames;
      ghost var start := stream;
      NoFrames();
      for i := 0 to |replacements|
        invariant stream == start + Frames(FlatReplacements(replacements[..i]))
      {
        var r := replacements[i];
        assert replacements[..i + 1][..i] == replacements[..i];
        ghost var flat := FlatReplacements(replacements[..i]);
        FramesThree(flat, r.role, r.path, r.content);
        WriteBytes(r.role);
        WriteBytes(r.path);
        WriteBytes(r.content);
        assert stream == start + (Frames(flat) + Frame(r.role) + Frame(r.path) + Frame(r.content));
      }
      assert replacements[..|replacements|] == replacements;
    }

    method WritePreview(p: Preview)
      modifies this
      requires stream == Frame(DOMAIN)
      ensures stream == PreviewStream(p)
    {
      hide Frame, IntegerFrame, ChangesStream, Frames, FlatReplacements;
      WriteBytes(p.base);
      WriteInteger(|p.changes|);
      WriteChanges(p.changes);
      WriteBytes(p.candidate);
      WriteInteger(|p.replacements|);
      WriteReplacements(p.replacements);
    }
  }

  lemma NoFrames()
    ensures Frames([]) == []
  {
  }

  lemma FramesTwo(items: seq<Bytes>, a: Bytes, b: Bytes)
    ensures Frames(items + [a, b]) == Frames(items) + Frame(a) + Frame(b)
  {
    hide Frame;
    var all := items + [a, b];
    assert all[..|all| - 1] == items + [a] && (items + [a])[..|items|] == items;
  }

  lemma FramesThree(items: seq<Bytes>, a: Bytes, b: Bytes, c: Bytes)
    ensures Frames(items + [a, b, c]) == Frames(items) + Frame(a) + Frame(b) + Frame(c)
  {
    hide Frame;
    var all := items + [a, b, c];
    assert all[..|all| - 1] == items + [a, b];
    FramesTwo(items, a, b);
  }

  // ---------- injectivity ----------

  predicate AllShort(items: seq<Bytes>) { forall i :: 0 <= i < |items| ==> |items[i]| < LIMIT }

  predicate ShortValue(v: Value) {
    match v
    case NoValue => true
    case Text(text) => |text| < LIMIT
    case Boolean(_) => true
    case Integer(number) => |Decimal.PrintSigned(number)| < LIMIT
    case TextList(items) => |items| < LIMIT && AllShort(items)
  }

  predicate ShortChange(c: Change) {
    |c.field| < LIMIT && |c.operation| < LIMIT && |c.bindings| < LIMIT && AllShort(Flat(c.bindings)) && ShortValue(c.value)
  }

  predicate ShortPreview(p: Preview) {
    && |p.base| < LIMIT && |p.changes| < LIMIT && (forall i :: 0 <= i < |p.changes| ==> ShortChange(p.changes[i]))
    && |p.candidate| < LIMIT && |p.replacements| < LIMIT && AllShort(FlatReplacements(p.replacements))
  }

  /** Frames read from the front. */
  lemma {:induction false} FramesFirst(items: seq<Bytes>)
    requires items != []
    ensures Frames(items) == Frame(items[0]) + Frames(items[1..])
  {
    hide Frame;
    var n := |items| - 1;
    if n == 0 {
      assert items[..0] == [] && items[1..] == [];
    } else {
      FramesFirst(items[..n]);
      assert items[..n][1..] == items[1..][..n - 1];
      assert items[1..][n - 1] == items[n];
      assert Frame(items[0]) + Frames(items[1..n]) + Frame(items[n])
          == Frame(items[0]) + (Frames(items[1..n]) + Frame(items[n]));
    }
  }

  lemma {:induction false} FramesSplit(a: seq<Bytes>, b: seq<Bytes>, x: Bytes, y: Bytes)
    requires |a| == |b| && AllShort(a) && AllShort(b) && Frames(a) + x == Frames(b) + y
    ensures a == b && x == y
  {
    hide Frame;
    if a == [] {
      assert [] + x == x && [] + y == y;
    } else {
      FramesFirst(a);
      FramesFirst(b);
      Associate(Frame(a[0]), Frames(a[1..]), x);
      Associate(Frame(b[0]), Frames(b[1..]), y);
      FrameSplits(a[0], b[0], Frames(a[1..]) + x, Frames(b[1..]) + y);
      FramesSplit(a[1..], b[1..], x, y);
      assert a == [a[0]] + a[1..] && b == [b[0]] + b[1..];
    }
  }

  lemma Associate(a: Bytes, b: Bytes, c: Bytes)
    ensures a + b + c == a + (b + c)
  {
  }

  lemma {:induction false} FlatInjective(a: seq<Binding>, b: seq<Binding>)
    requires |a| == |b| && Flat(a) == Flat(b)
    ensures a == b
  {
    if a != [] {
      var n := |a| - 1;
      var s, t := Flat(a), Flat(b);
      FlatLength(a[..n]);
      FlatLength(b[..n]);
      assert s[..2 * n] == Flat(a[..n]) && t[..2 * n] == Flat(b[..n]);
      assert s[2 * n] == a[n].id && s[2 * n + 1] == a[n].value && t[2 * n] == b[n].id && t[2 * n + 1] == b[n].value;
      FlatInjective(a[..n], b[..n]);
      assert a == a[..n] + [a[n]] && b == b[..n] + [b[n]];
    }
  }

  lemma {:induction false} FlatLength(a: seq<Binding>)
    ensures |Flat(a)| == 2 * |a|
  {
    if a != [] {
      FlatLength(a[..|a| - 1]);
    }
  }

  lemma {:induction false} FlatReplacementsInjective(a: seq<Replacement>, b: seq<Replacement>)
    requires |a| == |b| && FlatReplacements(a) == FlatReplacements(b)
    ensures a == b
  {
    if a != [] {
      var n := |a| - 1;
      var s, t := FlatReplacements(a), FlatReplacements(b);
      FlatReplacementsLength(a[..n]);
      FlatReplacementsLength(b[..n]);
      assert s[..3 * n] == FlatReplacements(a[..n]) && t[..3 * n] == FlatReplacements(b[..n]);
      assert s[3 * n] == a[n].role && s[3 * n + 1] == a[n].path && s[3 * n + 2] == a[n].content;
      assert t[3 * n] == b[n].role && t[3 * n + 1] == b[n].path && t[3 * n + 2] == b[n].content;
      FlatReplacementsInjective(a[..n], b[..n]);
      assert a == a[..n] + [a[n]] && b == b[..n] + [b[n]];
    }
  }

  lemma {:induction false} FlatReplacementsLength(a: seq<Replacement>)
    ensures |FlatReplacements(a)| == 3 * |a|
  {
    if a != [] {
      FlatReplacementsLength(a[..|a| - 1]);
    }
  }

  lemma KindsDiffer(v: Value, w: Value)
    ensures |KindOf(v)| < LIMIT
    ensures KindOf(v) == KindOf(w) ==>
              (v.NoValue? <==> w.NoValue?) && (v.Text? <==> w.Text?) && (v.Boolean? <==> w.Boolean?) && (v.Integer? <==> w.Integer?)
  {
    assert |KindOf(Text([]))| == 6 && |KindOf(Boolean(true))| == 7 && |KindOf(Integer(0))| == 7;
    assert |KindOf(TextList([]))| == 11;
    assert KindOf(Boolean(true))[0] == 98 && KindOf(Integer(0))[0] == 105;
  }

  lemma ValueSplits(v: Value, w: Value, x: Bytes, y: Bytes)
    requires ShortValue(v) && ShortValue(w) && ValueStream(v) + x == ValueStream(w) + y
    ensures v == w && x == y
  {
    hide Frame, KindOf, IntegerFrame, Decimal.PrintSigned;
    KindsDiffer(v, w);
    KindsDiffer(w, v);
    var r, s := ContentStream(v), ContentStream(w);
    assert ValueStream(v) == Frame(KindOf(v)) + r && ValueStream(w) == Frame(KindOf(w)) + s;
    Associate(Frame(KindOf(v)), r, x);
    Associate(Frame(KindOf(w)), s, y);
    FrameSplits(KindOf(v), KindOf(w), r + x, s + y);
    match v
    case NoValue => assert [] + x == x && [] + y == y;
    case Text(text) => FrameSplits(text, w.text, x, y);
    case Boolean(flag) => IntegerSplits(if flag then 1 else 0, if w.flag then 1 else 0, x, y);
    case Integer(number) =>
      FrameSplits(Decimal.PrintSigned(number), Decimal.PrintSigned(w.number), x, y);
      Decimal.PrintSignedInjective(number, w.number);
    case TextList(items) =>
      Associate(IntegerFrame(|items|), Frames(items), x);
      Associate(IntegerFrame(|w.items|), Frames(w.items), y);
      IntegerSplits(|items|, |w.items|, Frames(items) + x, Frames(w.items) + y);
      FramesSplit(items, w.items, x, y);
  }

  lemma ChangeSplits(a: Change, b: Change, x: Bytes, y: Bytes)
    requires ShortChange(a) && ShortChange(b) && ChangeStream(a) + x == ChangeStream(b) + y
    ensures a == b && x == y
  {
    hide Frame, IntegerFrame, ValueStream, Frames, Flat, ShortValue;
    var r, s := Frames(Flat(a.bindings)) + (ValueStream(a.value) + x), Frames(Flat(b.bindings)) + (ValueStream(b.value) + y);
    assert ChangeStream(a) + x == Frame(a.field) + (Frame(a.operation) + (IntegerFrame(|a.bindings|) + r));
    assert ChangeStream(b) + y == Frame(b.field) + (Frame(b.operation) + (IntegerFrame(|b.bindings|) + s));
    FrameSplits(a.field, b.field, Frame(a.operation) + (IntegerFrame(|a.bindings|) + r), Frame(b.operation) + (IntegerFrame(|b.bindings|) + s));
    FrameSplits(a.operation, b.operation, IntegerFrame(|a.bindings|) + r, IntegerFrame(|b.bindings|) + s);
    IntegerSplits(|a.bindings|, |b.bindings|, r, s);
    FlatLength(a.bindings);
    FlatLength(b.bindings);
    FramesSplit(Flat(a.bindings), Flat(b.bindings), ValueStream(a.value) + x, ValueStream(b.value) + y);
    FlatInjective(a.bindings, b.bindings);
    ValueSplits(a.value, b.value, x, y);
  }

  lemma {:induction false} ChangesFirst(changes: seq<Change>)
    requires changes != []
    ensures ChangesStream(changes) == ChangeStream(changes[0]) + ChangesStream(changes[1..])
  {
    hide ChangeStream;
    var n := |changes| - 1;
    if n == 0 {
      assert changes[..0] == [] && changes[1..] == [];
    } else {
      ChangesFirst(changes[..n]);
      assert changes[..n][1..] == changes[1..][..n - 1];
      assert changes[1..][n - 1] == changes[n];
      Associate(ChangeStream(changes[0]), ChangesStream(changes[1..n]), ChangeStream(changes[n]));
    }
  }

  lemma {:induction false} ChangesSplit(a: seq<Change>, b: seq<Change>, x: Bytes, y: Bytes)
    requires |a| == |b| && (forall i :: 0 <= i < |a| ==> ShortChange(a[i]) && ShortChange(b[i]))
    requires ChangesStream(a) + x == ChangesStream(b) + y
    ensures a == b && x == y
  {
    hide ChangeStream, ShortChange;
    if a == [] {
      assert [] + x == x && [] + y == y;
    } else {
      ChangesFirst(a);
      ChangesFirst(b);
      Associate(ChangeStream(a[0]), ChangesStream(a[1..]), x);
      Associate(ChangeStream(b[0]), ChangesStream(b[1..]), y);
      ChangeSplits(a[0], b[0], ChangesStream(a[1..]) + x, ChangesStream(b[1..]) + y);
      ChangesSplit(a[1..], b[1..], x, y);
      assert a == [a[0]] + a[1..] && b == [b[0]] + b[1..];
    }
  }

  /** Previews with the same stream are the same preview. */
  lemma PreviewInjective(p: Preview, q: Preview)
    requires ShortPreview(p) && ShortPreview(q) && PreviewStream(p) == PreviewStream(q)
    ensures p == q
  {
    hide Frame, IntegerFrame, ChangesStream, Frames, FlatReplacements, ShortChange;
    var c, d := Frames(FlatReplacements(p.replacements)), Frames(FlatReplacements(q.replacements));
    var r, s := Frame(p.candidate) + (IntegerFrame(|p.replacements|) + c), Frame(q.candidate) + (IntegerFrame(|q.replacements|) + d);
    var u, v := IntegerFrame(|p.changes|) + (ChangesStream(p.changes) + r), IntegerFrame(|q.changes|) + (ChangesStream(q.changes) + s);
    assert PreviewStream(p) == Frame(DOMAIN) + (Frame(p.base) + u);
    assert PreviewStream(q) == Frame(DOMAIN) + (Frame(q.base) + v);
    DomainShort();
    FrameSplits(DOMAIN, DOMAIN, Frame(p.base) + u, Frame(q.base) + v);
    FrameSplits(p.base, q.base, u, v);
    IntegerSplits(|p.changes|, |q.changes|, ChangesStream(p.changes) + r, ChangesStream(q.changes) + s);
    ChangesSplit(p.changes, q.changes, r, s);
    FrameSplits(p.candidate, q.candidate, IntegerFrame(|p.replacements|) + c, IntegerFrame(|q.replacements|) + d);
    IntegerSplits(|p.replacements|, |q.replacements|, c, d);
    FlatReplacementsLength(p.replacements);
    FlatReplacementsLength(q.replacements);
    assert c + [] == c && d + [] == d;
    FramesSplit(FlatReplacements(p.replacements), FlatReplacements(q.replacements), [], []);
    FlatReplacementsInjective(p.replacements, q.replacements);
  }

  lemma DomainShort()
    ensures |DOMAIN| < LIMIT
  {
  }
}
