/** Decimal numerals, as integers are printed and parsed. */
module Decimal {
  import opened ByteStrings

  predicate IsDigit(b: Byte) { 48 <= b <= 57 }

  predicate AllDigits(s: Bytes) { forall i :: 0 <= i < |s| ==> IsDigit(s[i]) }

  /** The numeral without leading zeros. */
  function Print(n: nat): (s: Bytes)
    ensures s != [] && AllDigits(s)
    ensures s[0] == 48 ==> |s| == 1
  {
    if n < 10 then [48 + n] else Print(n / 10) + [48 + n % 10]
  }

  function ValueOf(s: Bytes): nat
    requires AllDigits(s)
  {
    if s == [] then 0 else ValueOf(s[..|s| - 1]) * 10 + (s[|s| - 1] - 48)
  }

  /** A numeral: digits only, without leading zeros. */
  predicate Canonical(s: Bytes) { s != [] && AllDigits(s) && (s[0] == 48 ==> |s| == 1) }

  lemma {:induction false} PrintValue(n: nat)
    ensures ValueOf(Print(n)) == n
  {
    if n < 10 {
      assert [48 + n][..0] == [];
    } else {
      PrintValue(n / 10);
      var s := Print(n);
      assert s[..|s| - 1] == Print(n / 10);
    }
  }

  lemma {:induction false} ValuePositive(s: Bytes)
    requires Canonical(s) && s[0] != 48
    ensures ValueOf(s) > 0
  {
    if |s| > 1 {
      ValuePositive(s[..|s| - 1]);
    }
  }

  lemma {:induction false} ValuePrint(s: Bytes)
    requires Canonical(s)
    ensures Print(ValueOf(s)) == s
  {
    var init := s[..|s| - 1];
    if |s| == 1 {
      assert init == [];
      assert ValueOf(s) == s[0] as int - 48;
      assert s == [s[0]];
    } else {
      ValuePositive(init);
      ValuePrint(init);
      var d := s[|s| - 1] as int - 48;
      assert ValueOf(s) / 10 == ValueOf(init) && ValueOf(s) % 10 == d;
      assert init + [s[|s| - 1]] == s;
    }
  }

  lemma PrintInjective(m: nat, n: nat)
    requires Print(m) == Print(n)
    ensures m == n
  {
    PrintValue(m);
    PrintValue(n);
  }

  const MINUS: Byte := 45

  function PrintSigned(n: int): Bytes {
    if n < 0 then [MINUS] + Print(-n) else Print(n)
  }

  lemma PrintSignedInjective(m: int, n: int)
    requires PrintSigned(m) == PrintSigned(n)
    ensures m == n
  {
    hide Print;
    assert m < 0 ==> PrintSigned(m)[1..] == Print(-m);
    assert n < 0 ==> PrintSigned(n)[1..] == Print(-n);
    if m < 0 && n < 0 {
      PrintInjective(-m, -n);
    } else if m >= 0 && n >= 0 {
      PrintInjective(m, n);
    }
  }
}
