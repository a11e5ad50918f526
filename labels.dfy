/**
 * Route labels. A vehicle slot v of one service-area solve is shown as
 * "CEE_" followed by the decimal rendering of v + 1 (the f-string
 * f"CEE_{v_id+1}"). The rendering is modelled digit by digit so that a
 * label can be read back, which is what makes two vehicle slots of one
 * solve distinguishable by their label alone.
 */
module Labels {
  import opened Wrappers

  predicate IsDigit(c: char) {
    '0' <= c <= '9'
  }

  predicate AllDigits(s: string) {
    forall i :: 0 <= i < |s| ==> IsDigit(s[i])
  }

  function DigitChar(d: nat): (c: char)
    requires d < 10
    ensures IsDigit(c) && c as int - '0' as int == d
  {
    ('0' as int + d) as char
  }

  function DigitValue(c: char): (d: nat)
    requires IsDigit(c)
    ensures d < 10 && DigitChar(d) == c
  {
    c as int - '0' as int
  }

  /** The decimal rendering of n, without leading zeros, as Python's str(n) gives it. */
  function Decimal(n: nat): (s: string)
    ensures |s| >= 1 && AllDigits(s)
    ensures s[0] != '0' || n == 0
    ensures n < 10 <==> |s| == 1
    decreases n
  {
    if n < 10 then [DigitChar(n)] else Decimal(n / 10) + [DigitChar(n % 10)]
  }

  /** The value of a string of decimal digits (most significant first). */
  function DecimalValue(s: string): nat
    requires AllDigits(s)
    decreases |s|
  {
    if s == [] then 0 else DecimalValue(s[..|s| - 1]) * 10 + DigitValue(s[|s| - 1])
  }

  /** Reading back a rendering gives the number rendered. */
  lemma {:induction false} DecimalThenValue(n: nat)
    ensures DecimalValue(Decimal(n)) == n
    decreases n
  {
    var s := Decimal(n);
    if n >= 10 {
      DecimalThenValue(n / 10);
      assert s[..|s| - 1] == Decimal(n / 10);
    } else {
      assert s[..0] == [];
    }
  }

  /** A non-empty digit string is worth at least its leading digit. */
  lemma {:induction false} LeadingDigitBound(s: string)
    requires |s| >= 1 && AllDigits(s)
    ensures DecimalValue(s) >= DigitValue(s[0])
    decreases |s|
  {
    if |s| > 1 {
      var p := s[..|s| - 1];
      LeadingDigitBound(p);
      assert p[0] == s[0];
    } else {
      assert s[..0] == [];
    }
  }

  /** A canonical digit string (no leading zero) is the rendering of its own value. */
  lemma {:induction false} ValueThenDecimal(s: string)
    requires |s| >= 1 && AllDigits(s) && s[0] != '0'
    ensures Decimal(DecimalValue(s)) == s
    decreases |s|
  {
    var p := s[..|s| - 1];
    var c := s[|s| - 1];
    if |s| == 1 {
      assert p == [];
      assert DecimalValue(s) == DigitValue(c);
    } else {
      assert AllDigits(p) && p[0] == s[0];
      ValueThenDecimal(p);
      LeadingDigitBound(p);
      assert DigitValue(s[0]) >= 1;
      var n := DecimalValue(s);
      assert n == DecimalValue(p) * 10 + DigitValue(c);
      assert n / 10 == DecimalValue(p) && n % 10 == DigitValue(c);
      assert s == p + [c];
    }
  }

  const Prefix: string := "CEE_"

  /** The label of vehicle slot v (counted from 0): CEE_1, CEE_2, ... */
  function Label(v: nat): (s: string)
    ensures |s| > |Prefix| && s[..|Prefix|] == Prefix
    ensures AllDigits(s[|Prefix|..]) && s[|Prefix|] != '0'
  {
    assert (Prefix + Decimal(v + 1))[|Prefix|..] == Decimal(v + 1);
    Prefix + Decimal(v + 1)
  }

  /** The vehicle slot a label names, or None when the string is not a label. */
  function VehicleOf(name: string): Option<nat>
  {
    if |name| > |Prefix| && name[..|Prefix|] == Prefix
       && AllDigits(name[|Prefix|..]) && name[|Prefix|] != '0'
    then
      var k := DecimalValue(name[|Prefix|..]);
      if k >= 1 then Some(k - 1) else None
    else None
  }

  /** Reading a label gives back its vehicle slot, and only a label reads as one: VehicleOf is the exact inverse of Label. */
  lemma LabelRoundTrip(v: nat, s: string)
    ensures VehicleOf(Label(v)) == Some(v)
    ensures VehicleOf(s) == Some(v) ==> s == Label(v)
  {
    var t := Label(v)[|Prefix|..];
    assert t == Decimal(v + 1);
    DecimalThenValue(v + 1);
    if VehicleOf(s) == Some(v) {
      var d := s[|Prefix|..];
      ValueThenDecimal(d);
      assert s == Prefix + d;
    }
  }

  /** Two vehicle slots share a label exactly when they are the same slot. */
  lemma LabelInjective(a: nat, b: nat)
    ensures Label(a) == Label(b) <==> a == b
  {
    LabelRoundTrip(a, Label(b));
    LabelRoundTrip(b, Label(a));
  }
}
