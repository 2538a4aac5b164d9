/**
 * Python's `int(text)`, `float(text)` and `str(number)`, restricted to plain decimal
 * text: an optional sign followed by digits, and for floats at most one decimal point.
 * A float is kept as the exact decimal it was read from, so no rounding is modelled.
 */
module Numbers {
  import opened Wrappers
  import Strings

  predicate IsDigit(c: char) { '0' <= c <= '9' }

  predicate AllDigits(s: string) { forall i :: 0 <= i < |s| ==> IsDigit(s[i]) }

  /** The number a string of decimal digits denotes (leading zeros allowed, "" is 0). */
  function DigitsValue(s: string): nat
    requires AllDigits(s)
  {
    if s == [] then 0 else 10 * DigitsValue(s[..|s| - 1]) + (s[|s| - 1] as int - '0' as int)
  }

  /** Decimal digits of `n` without leading zeros. */
  function NatText(n: nat): (s: string)
    ensures |s| >= 1 && AllDigits(s)
    ensures DigitsValue(s) == n
    ensures s[0] == '0' ==> n == 0
  {
    var last := ('0' as int + n % 10) as char;
    if n < 10 then [last]
    else
      var prefix := NatText(n / 10);
      assert (prefix + [last])[..|prefix|] == prefix;
      prefix + [last]
  }

  /** An optional leading '-' or '+' and the text after it. */
  function SplitSign(s: string): (bool, string)
  {
    if |s| > 0 && s[0] == '-' then (true, s[1..])
    else if |s| > 0 && s[0] == '+' then (false, s[1..])
    else (false, s)
  }

  /** `int(text)`: fails (Python raises ValueError) unless the text is a signed digit string. */
  function ParseInt(s: string): Option<int>
  {
    var (negative, body) := SplitSign(s);
    if |body| > 0 && AllDigits(body) then
      var magnitude: int := DigitsValue(body);
      Some(if negative then -magnitude else magnitude)
    else None
  }

  predicate IsSign(c: char) { c == '-' || c == '+' }

  /** The text `int` accepts: one or more digits, optionally after a single sign. */
  predicate IntText(s: string)
  {
    |s| > 0 && (AllDigits(s) || (IsSign(s[0]) && |s| > 1 && AllDigits(s[1..])))
  }

  /** `int` accepts exactly the signed digit strings. */
  lemma ParseIntAccepts(s: string)
    ensures ParseInt(s).Some? <==> IntText(s)
  {
    if |s| > 0 && IsSign(s[0]) {
      assert !IsDigit(s[0]);
    }
  }

  /** `int` reads digits as their decimal value, negated after a '-'. */
  lemma ParseIntValue(d: string)
    requires |d| > 0 && AllDigits(d)
    ensures ParseInt(d) == Some(DigitsValue(d))
    ensures ParseInt("-" + d) == Some(-(DigitsValue(d) as int))
    ensures ParseInt("+" + d) == Some(DigitsValue(d))
  {
    assert IsDigit(d[0]);
    assert SplitSign(d) == (false, d);
    assert SplitSign("-" + d) == (true, d) by {
      assert ("-" + d)[1..] == d;
    }
    assert SplitSign("+" + d) == (false, d) by {
      assert ("+" + d)[1..] == d;
    }
  }

  /** `str(i)` for an int; `int` reads it back to the same number, and it holds no comma. */
  function ShowInt(i: int): (s: string)
    ensures ParseInt(s) == Some(i)
    ensures ',' !in s
  {
    if i < 0 then "-" + NatText(-i) else NatText(i)
  }

  /**
   * A decimal number: sign, whole part and the digits after the point. The sign is
   * kept apart so that -0.0 stays distinct from 0.0, as it does for a Python float.
   */
  datatype Decimal = Decimal(negative: bool, whole: nat, frac: string)

  /** The fraction digits are digits and carry no trailing zero. */
  predicate Canonical(d: Decimal)
  {
    AllDigits(d.frac) && (d.frac == [] || d.frac[|d.frac| - 1] != '0')
  }

  /** A float value, one decimal per number. */
  type FloatValue = d: Decimal | Canonical(d) witness Decimal(false, 0, "")

  /** Drops trailing '0' characters. */
  function TrimZeros(s: string): (t: string)
    ensures t <= s
    ensures t == [] || t[|t| - 1] != '0'
    ensures forall i :: |t| <= i < |s| ==> s[i] == '0'
  {
    if s != [] && s[|s| - 1] == '0' then TrimZeros(s[..|s| - 1]) else s
  }

  /**
   * `float(text)`: a signed digit string with at most one '.', and at least one digit
   * on one side of it ("5", "1.", ".5", "-2.50"); anything else fails.
   */
  function ParseFloat(s: string): Option<FloatValue>
  {
    var (negative, body) := SplitSign(s);
    ParseUnsignedFloat(negative, body)
  }

  /** `float` on the text after the sign. */
  function ParseUnsignedFloat(negative: bool, body: string): Option<FloatValue>
  {
    var parts := Strings.Split(body, '.');
    if |parts| == 1 && |body| > 0 && AllDigits(body) then
      Some(Decimal(negative, DigitsValue(body), ""))
    else if |parts| == 2 && |parts[0]| + |parts[1]| > 0 && AllDigits(parts[0]) && AllDigits(parts[1]) then
      var frac := TrimZeros(parts[1]);
      assert AllDigits(frac) by {
        forall i | 0 <= i < |frac| ensures IsDigit(frac[i]) {
          assert frac[i] == parts[1][i];
        }
      }
      Some(Decimal(negative, DigitsValue(parts[0]), frac))
    else None
  }

  /** Digits and points: at most one point, and at least one digit. */
  predicate DecimalText(b: string)
  {
    && (forall i :: 0 <= i < |b| ==> IsDigit(b[i]) || b[i] == '.')
    && (forall i, j :: 0 <= i < j < |b| && b[i] == '.' ==> b[j] != '.')
    && (exists i :: 0 <= i < |b| && IsDigit(b[i]))
  }

  /** The text `float` accepts: decimal text, optionally after a single sign. */
  predicate FloatText(s: string)
  {
    DecimalText(s) || (|s| > 0 && IsSign(s[0]) && DecimalText(s[1..]))
  }

  lemma UnsignedFloatAccepts(negative: bool, b: string)
    ensures ParseUnsignedFloat(negative, b).Some? <==> DecimalText(b)
  {
    var parts := Strings.Split(b, '.');
    if |parts| == 1 {
      assert b == parts[0];
      if DecimalText(b) {
        var i :| 0 <= i < |b| && IsDigit(b[i]);
        assert AllDigits(b);
      }
      if |b| > 0 && AllDigits(b) {
        assert IsDigit(b[0]);
      }
    } else if |parts| == 2 {
      var a, c := parts[0], parts[1];
      assert parts[1..] == [c];
      assert Strings.Join(parts, '.') == a + "." + Strings.Join(parts[1..], '.');
      assert b == a + "." + c;
      if DecimalText(b) {
        assert AllDigits(a) by {
          forall i | 0 <= i < |a| ensures IsDigit(a[i]) {
            assert b[i] == a[i];
          }
        }
        assert AllDigits(c) by {
          forall i | 0 <= i < |c| ensures IsDigit(c[i]) {
            assert b[|a| + 1 + i] == c[i];
          }
        }
        var k :| 0 <= k < |b| && IsDigit(b[k]);
        assert k != |a|;
      }
      if |a| + |c| > 0 && AllDigits(a) && AllDigits(c) {
        forall k | 0 <= k < |b| && k != |a| ensures IsDigit(b[k]) {
          if k < |a| { assert b[k] == a[k]; } else { assert b[k] == c[k - |a| - 1]; }
        }
        if |a| > 0 { assert IsDigit(b[0]); } else { assert IsDigit(b[|a| + 1]); }
      }
    } else {
      var a, c := parts[0], parts[1];
      var rest := Strings.Join(parts[2..], '.');
      assert parts[1..][1..] == parts[2..];
      assert Strings.Join(parts, '.') == a + "." + Strings.Join(parts[1..], '.');
      assert Strings.Join(parts[1..], '.') == c + "." + rest;
      assert b == a + "." + (c + "." + rest);
      assert b[|a|] == '.' && b[|a| + 1 + |c|] == '.';
    }
  }

  /** `float` accepts exactly the optionally signed decimal texts. */
  lemma ParseFloatAccepts(s: string)
    ensures ParseFloat(s).Some? <==> FloatText(s)
  {
    var (negative, body) := SplitSign(s);
    UnsignedFloatAccepts(negative, body);
    if |s| > 0 && IsSign(s[0]) {
      assert !(IsDigit(s[0]) || s[0] == '.');
    }
  }

  /** `float` reads a digit string as the whole number it denotes. */
  lemma ParseFloatWhole(w: string)
    requires |w| > 0 && AllDigits(w)
    ensures ParseFloat(w) == Some(Decimal(false, DigitsValue(w), ""))
  {
    assert IsDigit(w[0]);
    assert SplitSign(w) == (false, w);
    assert '.' !in w by {
      assert forall i :: 0 <= i < |w| ==> IsDigit(w[i]);
    }
    Strings.SplitNoSeparator(w, '.');
    assert ParseUnsignedFloat(false, w) == Some(Decimal(false, DigitsValue(w), ""));
  }

  /**
   * `float` reads `w.f` as the whole number `w` with the fraction digits `f`, trailing
   * zeros dropped; a leading '-' gives the negative value.
   */
  lemma ParseFloatPoint(w: string, f: string)
    requires AllDigits(w) && AllDigits(f) && |w| + |f| > 0
    ensures ParseFloat(w + "." + f) == Some(Decimal(false, DigitsValue(w), TrimZeros(f)))
    ensures ParseFloat("-" + w + "." + f) == Some(Decimal(true, DigitsValue(w), TrimZeros(f)))
  {
    var body := w + "." + f;
    assert '.' !in w && '.' !in f by {
      assert forall i :: 0 <= i < |w| ==> IsDigit(w[i]);
      assert forall i :: 0 <= i < |f| ==> IsDigit(f[i]);
    }
    Strings.SplitPair(w, f, '.');
    assert SplitSign(body) == (false, body) by {
      if |w| > 0 { assert body[0] == w[0]; } else { assert body[0] == '.'; }
    }
    assert SplitSign("-" + w + "." + f) == (true, body) by {
      assert "-" + w + "." + f == "-" + body;
      assert ("-" + body)[1..] == body;
    }
    assert ParseUnsignedFloat(false, body) == Some(Decimal(false, DigitsValue(w), TrimZeros(f)));
    assert ParseUnsignedFloat(true, body) == Some(Decimal(true, DigitsValue(w), TrimZeros(f)));
  }

  /** The digits-point-digits text of a float, without its sign. */
  function FloatBody(x: FloatValue): string
  {
    NatText(x.whole) + "." + (if x.frac == [] then "0" else x.frac)
  }

  lemma FloatBodyParses(x: FloatValue)
    ensures ParseUnsignedFloat(x.negative, FloatBody(x)) == Some(x)
    ensures |FloatBody(x)| > 0 && IsDigit(FloatBody(x)[0])
    ensures ',' !in FloatBody(x)
  {
    var whole := NatText(x.whole);
    var frac := if x.frac == [] then "0" else x.frac;
    assert AllDigits(frac);
    assert '.' !in whole && '.' !in frac && ',' !in whole && ',' !in frac by {
      assert forall i :: 0 <= i < |whole| ==> IsDigit(whole[i]);
      assert forall i :: 0 <= i < |frac| ==> IsDigit(frac[i]);
    }
    Strings.SplitPair(whole, frac, '.');
    assert TrimZeros(frac) == x.frac;
  }

  /**
   * `str(x)` for a float: the whole part, a point, and the fraction digits or a single
   * "0" ("100.0", "1.45", "-0.5"). `float` reads it back to the same value.
   */
  function ShowFloat(x: FloatValue): (s: string)
    ensures ParseFloat(s) == Some(x)
    ensures ',' !in s
  {
    var body := FloatBody(x);
    FloatBodyParses(x);
    if x.negative then
      assert ("-" + body)[1..] == body;
      "-" + body
    else
      body
  }
}
