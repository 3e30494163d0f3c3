/**
 * Python's `int(text)` on an already stripped text (chess_val.py:35, 39,
 * 40): an optional sign, then decimal digits in which single underscores
 * may separate two digits. Any other text raises ValueError, modelled as
 * None.
 */
module IntText {
  import opened Wrappers

  predicate IsDigit(c: char) { '0' <= c <= '9' }

  function DigitValue(c: char): (d: nat)
    requires IsDigit(c)
    ensures d < 10
  {
    c as int - '0' as int
  }

  function DigitChar(d: nat): (c: char)
    requires d < 10
    ensures IsDigit(c) && DigitValue(c) == d
  {
    ('0' as int + d) as char
  }

  predicate DigitOrUnderscore(c: char) { IsDigit(c) || c == '_' }

  /** The digit part of an integer literal: digit ("_"? digit)*. */
  predicate IsDigitBody(t: string)
  {
    && |t| > 0
    && IsDigit(t[0])
    && IsDigit(t[|t| - 1])
    && (forall i :: 0 <= i < |t| ==> DigitOrUnderscore(t[i]))
    && (forall i :: 0 <= i < |t| - 1 ==> !(t[i] == '_' && t[i + 1] == '_'))
  }

  /** The decimal value of digits, underscores skipped. */
  function DigitsValue(t: string): nat
    requires forall i :: 0 <= i < |t| ==> DigitOrUnderscore(t[i])
  {
    if |t| == 0 then 0
    else if t[|t| - 1] == '_' then DigitsValue(t[..|t| - 1])
    else
      assert DigitOrUnderscore(t[|t| - 1]);
      DigitsValue(t[..|t| - 1]) * 10 + DigitValue(t[|t| - 1])
  }

  predicate IsSign(c: char) { c == '+' || c == '-' }

  /** `int(s)` for base 10: None where Python raises ValueError. */
  function ParseInt(s: string): (r: Option<int>)
    ensures r.Some? ==> |s| > 0 && forall i :: 0 < i < |s| ==> DigitOrUnderscore(s[i])
    ensures r.Some? ==> IsDigit(s[0]) || s[0] == '+' || s[0] == '-'
    ensures r.Some? && r.value < 0 ==> s[0] == '-'
    ensures r.Some? && r.value > 0 ==> s[0] != '-'
  {
    if |s| > 0 && IsSign(s[0]) then
      var body := s[1..];
      if IsDigitBody(body) then
        var v: int := DigitsValue(body);
        Some(if s[0] == '-' then -v else v)
      else None
    else if IsDigitBody(s) then Some(DigitsValue(s))
    else None
  }

  /** The decimal digits of `n`, as Python's `str` writes a non-negative int. */
  function NatToString(n: nat): (s: string)
    ensures |s| > 0 && forall i :: 0 <= i < |s| ==> IsDigit(s[i])
  {
    if n < 10 then [DigitChar(n)] else NatToString(n / 10) + [DigitChar(n % 10)]
  }

  /** `str(n)` for an int: a minus sign before the digits of a negative number. */
  function IntToString(n: int): string
  {
    if n < 0 then "-" + NatToString(-n) else NatToString(n)
  }

  lemma {:induction false} NatToStringValue(n: nat)
    ensures IsDigitBody(NatToString(n))
    ensures DigitsValue(NatToString(n)) == n
  {
    var s := NatToString(n);
    if n >= 10 {
      NatToStringValue(n / 10);
      assert s[..|s| - 1] == NatToString(n / 10);
    }
  }

  /** `int(str(n)) == n`: every decimal text Python prints parses back to its number. */
  lemma ParseIntOfIntToString(n: int)
    ensures ParseInt(IntToString(n)) == Some(n)
  {
    var s := IntToString(n);
    if n < 0 {
      NatToStringValue(-n);
      assert s[0] == '-' && s[1..] == NatToString(-n);
    } else {
      NatToStringValue(n);
      assert !IsSign(s[0]);
    }
  }

  /** A text holding a character that is no digit, underscore or leading sign raises. */
  lemma ParseIntRejectsForeignCharacter(s: string, k: nat)
    requires k < |s| && !DigitOrUnderscore(s[k]) && !(k == 0 && IsSign(s[k]))
    ensures ParseInt(s) == None
  {
  }

  /**
   * An empty cell, a lone sign, an underscore at the start, right after
   * the sign or at the end, and a doubled underscore all raise.
   */
  lemma ParseIntRejectsMalformed(s: string)
    ensures s == "" ==> ParseInt(s) == None
    ensures |s| == 1 && IsSign(s[0]) ==> ParseInt(s) == None
    ensures |s| > 0 && s[0] == '_' ==> ParseInt(s) == None
    ensures |s| > 1 && IsSign(s[0]) && s[1] == '_' ==> ParseInt(s) == None
    ensures |s| > 0 && s[|s| - 1] == '_' ==> ParseInt(s) == None
    ensures (exists i :: 0 <= i < |s| - 1 && s[i] == '_' && s[i + 1] == '_') ==> ParseInt(s) == None
  {
    if |s| > 1 && IsSign(s[0]) {
      assert s[1..][|s| - 2] == s[|s| - 1];
    }
  }

  /** Every well-formed digit part is accepted, read as its decimal value. */
  lemma ParseIntAcceptsDigits(t: string)
    requires IsDigitBody(t)
    ensures ParseInt(t) == Some(DigitsValue(t))
  {
  }

  /** A leading '+' changes nothing, and a leading '-' negates, in front of any digit part. */
  lemma ParseIntAcceptsSign(t: string)
    requires IsDigitBody(t)
    ensures ParseInt("+" + t) == ParseInt(t)
    ensures ParseInt("-" + t) == Some(-(DigitsValue(t) as int))
  {
    assert ("+" + t)[1..] == t;
    assert ("-" + t)[1..] == t;
  }

  lemma {:induction false} LeadingZeroValue(t: string)
    requires forall i :: 0 <= i < |t| ==> DigitOrUnderscore(t[i])
    ensures forall i :: 0 <= i < |"0" + t| ==> DigitOrUnderscore(("0" + t)[i])
    ensures DigitsValue("0" + t) == DigitsValue(t)
  {
    var z := "0" + t;
    assert forall i :: 0 <= i < |z| ==> DigitOrUnderscore(z[i]) by {
      forall i | 0 <= i < |z| ensures DigitOrUnderscore(z[i]) {
        if i > 0 { assert z[i] == t[i - 1]; }
      }
    }
    if |t| > 0 {
      LeadingZeroValue(t[..|t| - 1]);
      assert z[..|z| - 1] == "0" + t[..|t| - 1];
    }
  }

  /** Leading zeros are allowed and do not change the value. */
  lemma ParseIntAcceptsLeadingZero(t: string)
    requires IsDigitBody(t)
    ensures ParseInt("0" + t) == ParseInt(t)
  {
    LeadingZeroValue(t);
    var z := "0" + t;
    forall i | 0 <= i < |z| - 1 ensures !(z[i] == '_' && z[i + 1] == '_') {
      if i > 0 { assert z[i] == t[i - 1] && z[i + 1] == t[i]; }
    }
  }

  lemma {:induction false} UnderscoreValue(x: string, y: string)
    requires forall i :: 0 <= i < |x| ==> DigitOrUnderscore(x[i])
    requires forall i :: 0 <= i < |y| ==> DigitOrUnderscore(y[i])
    ensures forall i :: 0 <= i < |x + y| ==> DigitOrUnderscore((x + y)[i])
    ensures forall i :: 0 <= i < |x + "_" + y| ==> DigitOrUnderscore((x + "_" + y)[i])
    ensures DigitsValue(x + "_" + y) == DigitsValue(x + y)
  {
    var u, v := x + "_" + y, x + y;
    assert forall i :: 0 <= i < |u| ==> DigitOrUnderscore(u[i]) by {
      forall i | 0 <= i < |u| ensures DigitOrUnderscore(u[i]) {
        if i < |x| { assert u[i] == x[i]; } else if i > |x| { assert u[i] == y[i - |x| - 1]; }
      }
    }
    assert forall i :: 0 <= i < |v| ==> DigitOrUnderscore(v[i]) by {
      forall i | 0 <= i < |v| ensures DigitOrUnderscore(v[i]) {
        if i < |x| { assert v[i] == x[i]; } else { assert v[i] == y[i - |x|]; }
      }
    }
    if |y| == 0 {
      assert u[..|u| - 1] == x;
      assert v == x;
    } else {
      var y0 := y[..|y| - 1];
      UnderscoreValue(x, y0);
      assert u[..|u| - 1] == x + "_" + y0;
      assert v[..|v| - 1] == x + y0;
      assert u[|u| - 1] == v[|v| - 1] == y[|y| - 1];
    }
  }

  lemma UnderscoreDropped(a: string, b: string)
    requires |a| > 0 && |b| > 0 && IsDigit(a[|a| - 1]) && IsDigit(b[0])
    requires IsDigitBody(a + "_" + b)
    ensures IsDigitBody(a + b)
  {
    var u, v := a + "_" + b, a + b;
    assert v[0] == u[0] && v[|v| - 1] == u[|u| - 1];
    forall i | 0 <= i < |v| ensures DigitOrUnderscore(v[i]) {
      if i < |a| { assert v[i] == u[i]; } else { assert v[i] == u[i + 1]; }
    }
    forall i | 0 <= i < |v| - 1 ensures !(v[i] == '_' && v[i + 1] == '_') {
      if i < |a| - 1 { assert v[i] == u[i] && v[i + 1] == u[i + 1]; }
      else if i >= |a| { assert v[i] == u[i + 1] && v[i + 1] == u[i + 2]; }
    }
  }

  lemma UnderscoreInserted(a: string, b: string)
    requires |a| > 0 && |b| > 0 && IsDigit(a[|a| - 1]) && IsDigit(b[0])
    requires IsDigitBody(a + b)
    ensures IsDigitBody(a + "_" + b)
  {
    var u, v := a + "_" + b, a + b;
    assert v[0] == u[0] && v[|v| - 1] == u[|u| - 1];
    forall i | 0 <= i < |u| ensures DigitOrUnderscore(u[i]) {
      if i < |a| { assert u[i] == v[i]; } else if i > |a| { assert u[i] == v[i - 1]; }
    }
    forall i | 0 <= i < |u| - 1 ensures !(u[i] == '_' && u[i + 1] == '_') {
      if i < |a| - 1 { assert u[i] == v[i] && u[i + 1] == v[i + 1]; }
      else if i > |a| { assert u[i] == v[i - 1] && u[i + 1] == v[i]; }
    }
  }

  lemma UnderscoreBody(a: string, b: string)
    requires |a| > 0 && |b| > 0 && IsDigit(a[|a| - 1]) && IsDigit(b[0])
    ensures IsDigitBody(a + "_" + b) <==> IsDigitBody(a + b)
    ensures IsDigitBody(a + b) ==> DigitsValue(a + "_" + b) == DigitsValue(a + b)
  {
    if IsDigitBody(a + "_" + b) { UnderscoreDropped(a, b); }
    if IsDigitBody(a + b) {
      UnderscoreInserted(a, b);
      var v := a + b;
      forall i | 0 <= i < |a| ensures DigitOrUnderscore(a[i]) { assert a[i] == v[i]; }
      forall i | 0 <= i < |b| ensures DigitOrUnderscore(b[i]) { assert b[i] == v[|a| + i]; }
      UnderscoreValue(a, b);
    }
  }

  /** An underscore between two digits is accepted and ignored: `int("1_000") == int("1000")`. */
  lemma ParseIntIgnoresUnderscore(a: string, b: string)
    requires |a| > 0 && |b| > 0 && IsDigit(a[|a| - 1]) && IsDigit(b[0])
    ensures ParseInt(a + "_" + b) == ParseInt(a + b)
  {
    var u, v := a + "_" + b, a + b;
    if IsSign(a[0]) {
      var a' := a[1..];
      assert |a'| > 0;
      assert u[0] == v[0] == a[0];
      assert u[1..] == a' + "_" + b;
      assert v[1..] == a' + b;
      UnderscoreBody(a', b);
    } else {
      assert u[0] == v[0] == a[0];
      UnderscoreBody(a, b);
    }
  }
}
