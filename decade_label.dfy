/**
 * Decade labels, the keys of a director's `decades` object: the sentinel
 * `"unknown"` or an integer literal such as `"1990"`, which the analysis
 * reads with Python's `int`.
 */
module DecadeLabel {

  const Unknown: string := "unknown"

  predicate IsDigit(c: char)
  {
    '0' <= c <= '9'
  }

  /** One or more decimal digits. */
  predicate IsDigits(s: string)
  {
    |s| > 0 && forall i :: 0 <= i < |s| ==> IsDigit(s[i])
  }

  /** An integer literal: an optional minus sign followed by decimal digits. */
  predicate IsIntLiteral(s: string)
  {
    IsDigits(s) || (|s| > 1 && s[0] == '-' && IsDigits(s[1..]))
  }

  /** The labels the dataset may use. */
  predicate IsLabel(s: string)
  {
    s == Unknown || IsIntLiteral(s)
  }

  /** The value of a string of decimal digits, most significant first. */
  function DigitsValue(s: string): (n: nat)
    requires forall i :: 0 <= i < |s| ==> IsDigit(s[i])
  {
    if s == [] then 0
    else
      assert IsDigit(s[|s| - 1]);
      DigitsValue(s[..|s| - 1]) * 10 + (s[|s| - 1] as int - '0' as int)
  }

  /** Python's `int(s)` on an integer literal. */
  function ParseInt(s: string): int
    requires IsIntLiteral(s)
  {
    if s[0] == '-' then -(DigitsValue(s[1..]) as int) else DigitsValue(s)
  }

  /** Digits have a positive value exactly when one of them is not zero. */
  lemma {:induction false} DigitsValuePositive(s: string)
    requires forall i :: 0 <= i < |s| ==> IsDigit(s[i])
    ensures DigitsValue(s) > 0 <==> exists i :: 0 <= i < |s| && s[i] != '0'
  {
    if s != [] {
      var init := s[..|s| - 1];
      DigitsValuePositive(init);
      if exists i :: 0 <= i < |init| && init[i] != '0' {
        var i :| 0 <= i < |init| && init[i] != '0';
        assert s[i] != '0';
      }
      if exists i :: 0 <= i < |s| && s[i] != '0' {
        var i :| 0 <= i < |s| && s[i] != '0';
        if i < |s| - 1 {
          assert init[i] != '0';
        }
      }
    }
  }

  /** `int(s) > 0` exactly when `s` has no minus sign and some digit other than zero. */
  lemma ParseIntPositive(s: string)
    requires IsIntLiteral(s)
    ensures ParseInt(s) > 0 <==> s[0] != '-' && exists i :: 0 <= i < |s| && s[i] != '0'
  {
    if s[0] == '-' {
      assert !IsDigits(s);
    } else {
      DigitsValuePositive(s);
    }
  }

  /** Digit strings without a leading zero are determined by their value. */
  lemma {:induction false} DigitsValueInjective(a: string, b: string)
    requires forall i :: 0 <= i < |a| ==> IsDigit(a[i])
    requires forall i :: 0 <= i < |b| ==> IsDigit(b[i])
    requires a == [] || a[0] != '0'
    requires b == [] || b[0] != '0'
    requires DigitsValue(a) == DigitsValue(b)
    ensures a == b
    decreases |a|
  {
    DigitsValuePositive(a);
    DigitsValuePositive(b);
    if a != [] && b != [] {
      var ia, ib := a[..|a| - 1], b[..|b| - 1];
      var da := a[|a| - 1] as int - '0' as int;
      var db := b[|b| - 1] as int - '0' as int;
      assert IsDigit(a[|a| - 1]) && IsDigit(b[|b| - 1]);
      assert DigitsValue(ia) * 10 + da == DigitsValue(ib) * 10 + db;
      assert DigitsValue(ia) == DigitsValue(ib) && da == db;
      assert ia == [] || ia[0] == a[0];
      assert ib == [] || ib[0] == b[0];
      DigitsValueInjective(ia, ib);
      assert a == ia + [a[|a| - 1]] && b == ib + [b[|b| - 1]];
    }
  }

  /** Two positive decades written without a leading zero are equal when their values are. */
  lemma ParseIntInjective(a: string, b: string)
    requires IsIntLiteral(a) && ParseInt(a) > 0 && a[0] != '0'
    requires IsIntLiteral(b) && ParseInt(b) > 0 && b[0] != '0'
    ensures ParseInt(a) == ParseInt(b) ==> a == b
  {
    ParseIntPositive(a);
    ParseIntPositive(b);
    if ParseInt(a) == ParseInt(b) {
      DigitsValueInjective(a, b);
    }
  }
}
