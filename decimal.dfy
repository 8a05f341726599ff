/** Decimal literals as Python's float() reads them (without exponents, inf/nan
    or digit-group underscores), their truncation toward zero, and Python's
    str() of an int. Together these model the numeric branch of clean_barcode:
    str(int(float(s))). */
module Decimal {

  datatype Option<T> = None | Some(value: T)

  predicate IsDigit(c: char) { '0' <= c <= '9' }

  predicate AllDigits(s: string) { forall i :: 0 <= i < |s| ==> IsDigit(s[i]) }

  function DigitValue(c: char): (d: nat)
    requires IsDigit(c)
    ensures d < 10
  {
    c as int - '0' as int
  }

  function DigitChar(d: nat): (c: char)
    requires d < 10
    ensures IsDigit(c) && DigitValue(c) == d
  {
    ('0' as int + d) as char
  }

  lemma DigitCharOfValue(c: char)
    requires IsDigit(c)
    ensures DigitChar(DigitValue(c)) == c
  {
  }

  /** The number a run of decimal digits denotes, most significant digit
      first; the empty run denotes 0 (as in ".5"). */
  function Value(s: string): nat
    requires AllDigits(s)
    decreases |s|
  {
    if s == [] then 0 else Value(s[..|s| - 1]) * 10 + DigitValue(s[|s| - 1])
  }

  /** A digit run that starts with a non-zero digit denotes a positive number. */
  lemma {:induction false} ValuePositive(s: string)
    requires AllDigits(s) && |s| > 0 && s[0] != '0'
    ensures Value(s) > 0
    decreases |s|
  {
    if |s| > 1 {
      ValuePositive(s[..|s| - 1]);
    }
  }

  // ---------------------------------------------------------------------
  // Formatting: Python's str() of an int

  /** Python's canonical spelling of a non-negative int: digits only, and no
      leading zero unless the number is zero itself. */
  predicate IsCanonicalNat(s: string)
  {
    |s| > 0 && AllDigits(s) && (s[0] == '0' ==> |s| == 1)
  }

  /** Python's canonical spelling of an int: a canonical natural, or a minus
      sign followed by a canonical natural other than "0". */
  predicate IsCanonicalInt(s: string)
  {
    IsCanonicalNat(s) || (|s| > 1 && s[0] == '-' && IsCanonicalNat(s[1..]) && s[1..] != "0")
  }

  /** str(n) for a Python int n >= 0. */
  function NatToString(n: nat): string
    decreases n
  {
    if n < 10 then [DigitChar(n)] else NatToString(n / 10) + [DigitChar(n % 10)]
  }

  /** str() of a non-negative int is canonical, denotes that number, and is
      "0" only for zero. */
  lemma {:induction false} NatToStringSpec(n: nat)
    ensures IsCanonicalNat(NatToString(n)) && Value(NatToString(n)) == n
    ensures NatToString(n) == "0" <==> n == 0
    decreases n
  {
    if n >= 10 {
      var front := NatToString(n / 10);
      var r := NatToString(n);
      NatToStringSpec(n / 10);
      assert r == front + [DigitChar(n % 10)];
      assert r[..|r| - 1] == front;
      assert r[0] == front[0];
    }
  }

  /** str(n) for a Python int n. */
  function IntToString(n: int): string
  {
    if n < 0 then "-" + NatToString(-n) else NatToString(n)
  }

  /** str() of an int is canonical and starts with a minus sign exactly when
      the number is negative. */
  lemma IntToStringSpec(n: int)
    ensures IsCanonicalInt(IntToString(n))
    ensures IntToString(n)[0] == '-' <==> n < 0
  {
    if n < 0 {
      NatToStringSpec(-n);
      assert IntToString(n)[1..] == NatToString(-n);
    } else {
      NatToStringSpec(n);
    }
  }

  // ---------------------------------------------------------------------
  // Lexing: the decimal literals float() accepts

  datatype Sign = NoSign | Plus | Minus

  /** A decimal literal: an optional sign, the digits before the point and,
      when there is a point, the digits after it. */
  datatype Literal = Literal(sign: Sign, whole: string, frac: Option<string>)

  /** float() accepts a literal with at least one digit on either side of
      an optional point: "12", "12.", ".5" and "-3.7", but not "", "." or "-". */
  predicate WellFormed(l: Literal)
  {
    && AllDigits(l.whole)
    && (l.frac.Some? ==> AllDigits(l.frac.value))
    && (l.whole != [] || (l.frac.Some? && l.frac.value != []))
  }

  function SignText(s: Sign): string
  {
    match s
    case NoSign => ""
    case Plus => "+"
    case Minus => "-"
  }

  function FracText(f: Option<string>): string
  {
    match f
    case None => ""
    case Some(digits) => "." + digits
  }

  /** The text of a literal. */
  function Render(l: Literal): string
  {
    SignText(l.sign) + l.whole + FracText(l.frac)
  }

  /** int(float(text of l)): the fraction is discarded, so the result is
      truncated toward zero, not rounded and not floored. */
  function Truncate(l: Literal): (n: int)
    requires WellFormed(l)
    ensures n == 0 || (n < 0 <==> l.sign == Minus)
    ensures n < 0 ==> -n == Value(l.whole)
    ensures n >= 0 ==> n == Value(l.whole)
  {
    var v: int := Value(l.whole);
    if l.sign == Minus then -v else v
  }

  function Pow10(k: nat): (p: nat)
    ensures p >= 1
  {
    if k == 0 then 1 else 10 * Pow10(k - 1)
  }

  /** A run of k digits stays below 10^k. */
  lemma {:induction false} ValueBelow(s: string)
    requires AllDigits(s)
    ensures Value(s) < Pow10(|s|)
    decreases |s|
  {
    if s != [] {
      var front := s[..|s| - 1];
      ValueBelow(front);
      assert Value(s) == Value(front) * 10 + DigitValue(s[|s| - 1]);
      assert Value(front) * 10 <= (Pow10(|front|) - 1) * 10;
    }
  }

  /** The fraction digits d of a literal, as the number 0.d. */
  ghost function FracValue(f: Option<string>): real
    requires f.Some? ==> AllDigits(f.value)
  {
    match f
    case None => 0.0
    case Some(digits) => Value(digits) as real / Pow10(|digits|) as real
  }

  /** The exact number a literal denotes: sign, whole part and fraction. */
  ghost function LitValue(l: Literal): real
    requires WellFormed(l)
  {
    var magnitude := Value(l.whole) as real + FracValue(l.frac);
    if l.sign == Minus then -magnitude else magnitude
  }

  /** A fraction 0.d lies in [0, 1). */
  lemma FracBounds(f: Option<string>)
    requires f.Some? ==> AllDigits(f.value)
    ensures 0.0 <= FracValue(f) < 1.0
  {
    if f.Some? {
      var d := f.value;
      ValueBelow(d);
      Ratio(Value(d) as real, Pow10(|d|) as real);
    }
  }

  lemma Ratio(a: real, b: real)
    requires 0.0 <= a < b
    ensures 0.0 <= a / b < 1.0
  {
    assert a / b * b == a;
  }

  /** int() of the number a literal denotes moves it toward zero by less
      than one: from below for a non-negative value, from above for a
      negative one. */
  lemma TruncateTowardZero(l: Literal)
    requires WellFormed(l)
    ensures LitValue(l) >= 0.0 ==> Truncate(l) as real <= LitValue(l) < Truncate(l) as real + 1.0
    ensures LitValue(l) < 0.0 ==> Truncate(l) as real - 1.0 < LitValue(l) <= Truncate(l) as real
  {
    FracBounds(l.frac);
  }

  /** The first index at or after i whose character is not a digit, or |t|
      when there is none. */
  function DigitEnd(t: string, i: nat): (j: nat)
    requires i <= |t|
    ensures i <= j <= |t|
    decreases |t| - i
  {
    if i < |t| && IsDigit(t[i]) then DigitEnd(t, i + 1) else i
  }

  /** DigitEnd passes over digits only and stops at a non-digit or the end. */
  lemma {:induction false} DigitEndSpec(t: string, i: nat)
    requires i <= |t|
    ensures forall k :: i <= k < DigitEnd(t, i) ==> IsDigit(t[k])
    ensures DigitEnd(t, i) < |t| ==> !IsDigit(t[DigitEnd(t, i)])
    decreases |t| - i
  {
    if i < |t| && IsDigit(t[i]) {
      DigitEndSpec(t, i + 1);
    }
  }

  /** The place DigitEnd stops is the only k with digits from i up to it and
      a non-digit (or the end) at it. */
  lemma {:induction false} DigitEndUnique(t: string, i: nat, k: nat)
    requires i <= k <= |t|
    requires forall m :: i <= m < k ==> IsDigit(t[m])
    requires k < |t| ==> !IsDigit(t[k])
    ensures DigitEnd(t, i) == k
    decreases k - i
  {
    if i < k {
      assert IsDigit(t[i]);
      DigitEndUnique(t, i + 1, k);
    }
  }

  function SignOf(t: string): Sign
  {
    if |t| > 0 && t[0] == '+' then Plus
    else if |t| > 0 && t[0] == '-' then Minus
    else NoSign
  }

  /** The literal whose text is exactly t, if there is one: the sign, then
      the digits up to the first non-digit q, then nothing or a point and
      digits only. */
  function Lex(t: string): (r: Option<Literal>)
  {
    var sign := SignOf(t);
    var p := |SignText(sign)|;
    var q := DigitEnd(t, p);
    if q == |t| then
      if q > p then Some(Literal(sign, t[p..q], None)) else None
    else if t[q] == '.' && AllDigits(t[q + 1..]) && (q > p || q + 1 < |t|) then
      Some(Literal(sign, t[p..q], Some(t[q + 1..])))
    else None
  }

  /** Where the sign, the whole digits and the fraction sit in the text of
      a literal. */
  lemma RenderParts(l: Literal)
    ensures var t, p := Render(l), |SignText(l.sign)|;
      && p + |l.whole| <= |t|
      && t[..p] == SignText(l.sign)
      && t[p..p + |l.whole|] == l.whole
      && t[p + |l.whole|..] == FracText(l.frac)
  {
    var st, w, f := SignText(l.sign), l.whole, FracText(l.frac);
    var t := Render(l);
    assert t == st + w + f;
    assert t[..|st|] == st;
    assert t[|st|..|st| + |w|] == w;
    assert t[|st| + |w|..] == f;
  }

  /** In the text of a literal, the sign is read back and the digit run
      after it ends where the whole digits end. */
  lemma RenderSignDigits(l: Literal)
    requires WellFormed(l)
    ensures SignOf(Render(l)) == l.sign
    ensures DigitEnd(Render(l), |SignText(l.sign)|) == |SignText(l.sign)| + |l.whole|
  {
    var t, p := Render(l), |SignText(l.sign)|;
    var q := p + |l.whole|;
    RenderParts(l);
    var f := FracText(l.frac);
    assert f != [] ==> f[0] == '.';
    if l.whole != [] {
      assert t[p] == t[p..q][0];
    } else {
      assert t[q] == f[0];
    }
    forall m | p <= m < q ensures IsDigit(t[m]) {
      assert t[m] == t[p..q][m - p];
    }
    if q < |t| {
      assert t[q] == f[0];
    }
    DigitEndUnique(t, p, q);
  }

  /** Lexing the text of a well-formed literal gives that literal back. */
  lemma LexRender(l: Literal)
    requires WellFormed(l)
    ensures Lex(Render(l)) == Some(l)
  {
    var t, p := Render(l), |SignText(l.sign)|;
    var q := p + |l.whole|;
    RenderParts(l);
    RenderSignDigits(l);
    if l.frac.Some? {
      assert t[q..] == "." + l.frac.value;
      assert t[q] == '.';
      assert t[q + 1..] == l.frac.value;
    }
  }

  /** Whatever Lex accepts is a well-formed literal spelt exactly as t. */
  lemma RenderLex(t: string)
    requires Lex(t).Some?
    ensures WellFormed(Lex(t).value) && Render(Lex(t).value) == t
  {
    var l := Lex(t).value;
    var sign := SignOf(t);
    var p := |SignText(sign)|;
    var q := DigitEnd(t, p);
    assert l.sign == sign && l.whole == t[p..q];
    DigitEndSpec(t, p);
    assert AllDigits(l.whole) by {
      forall m | 0 <= m < |l.whole| ensures IsDigit(l.whole[m]) {
        assert l.whole[m] == t[p + m];
      }
    }
    assert t[..p] == SignText(sign);
    var f := FracText(l.frac);
    assert f == t[q..] by {
      if q < |t| {
        assert t[q..] == "." + t[q + 1..];
      }
    }
    Reassemble(t, p, q, SignText(sign), l.whole, f);
  }

  lemma Reassemble(t: string, p: nat, q: nat, a: string, b: string, c: string)
    requires p <= q <= |t| && a == t[..p] && b == t[p..q] && c == t[q..]
    ensures t == a + b + c
  {
    assert t == t[..p] + t[p..q] + t[q..];
  }

  /** The characters a literal's text can contain. */
  predicate IsLiteralChar(c: char) { IsDigit(c) || c == '+' || c == '-' || c == '.' }

  lemma RenderChars(l: Literal)
    requires WellFormed(l)
    ensures forall i :: 0 <= i < |Render(l)| ==> IsLiteralChar(Render(l)[i])
  {
    var s, w, f := SignText(l.sign), l.whole, FracText(l.frac);
    assert Render(l) == s + w + f;
    forall i | 0 <= i < |Render(l)| ensures IsLiteralChar(Render(l)[i]) {
      if i < |s| {
        assert Render(l)[i] == s[i];
      } else if i < |s| + |w| {
        assert Render(l)[i] == w[i - |s|];
      } else {
        assert Render(l)[i] == f[i - |s| - |w|];
      }
    }
  }

  lemma CanonicalChars(s: string)
    requires IsCanonicalInt(s)
    ensures forall i :: 0 <= i < |s| ==> IsLiteralChar(s[i])
  {
    if !IsCanonicalNat(s) {
      forall i | 0 <= i < |s| ensures IsLiteralChar(s[i]) {
        if i > 0 {
          assert s[i] == s[1..][i - 1];
        }
      }
    }
  }

  /** int(float(t)) when t is a plain decimal literal; None where float()
      would raise. */
  function ParseLiteral(t: string): Option<int>
  {
    match Lex(t)
    case None => None
    case Some(l) =>
      RenderLex(t);
      Some(Truncate(l))
  }

  /** A text with a character no literal contains does not parse. */
  lemma ParseRejects(t: string, i: nat)
    requires i < |t| && !IsLiteralChar(t[i])
    ensures ParseLiteral(t) == None
  {
    if Lex(t).Some? {
      RenderLex(t);
      RenderChars(Lex(t).value);
    }
  }

  /** The literal str(n) spells. */
  function LiteralOf(n: int): (l: Literal)
    ensures WellFormed(l) && Render(l) == IntToString(n)
  {
    NatToStringSpec(if n < 0 then -n else n);
    if n < 0 then Literal(Minus, NatToString(-n), None) else Literal(NoSign, NatToString(n), None)
  }

  /** Round trip one way: int(float(str(n))) == n. */
  lemma ParseFormat(n: int)
    ensures ParseLiteral(IntToString(n)) == Some(n)
  {
    NatToStringSpec(if n < 0 then -n else n);
    LexRender(LiteralOf(n));
  }

  lemma {:induction false} FormatValue(s: string)
    requires IsCanonicalNat(s)
    ensures NatToString(Value(s)) == s
    decreases |s|
  {
    if |s| == 1 {
      DigitCharOfValue(s[0]);
      assert NatToString(Value(s)) == [s[0]];
    } else {
      var front := s[..|s| - 1];
      var last := s[|s| - 1];
      ValuePositive(front);
      FormatValue(front);
      DigitCharOfValue(last);
      var n := Value(s);
      assert n == Value(front) * 10 + DigitValue(last);
      DivMod10(Value(front), DigitValue(last));
      assert NatToString(n) == NatToString(Value(front)) + [DigitChar(DigitValue(last))];
      assert s == front + [last];
    }
  }

  /** Appending a digit d to the spelling of q gives q * 10 + d, and
      dividing by ten takes it off again. */
  lemma DivMod10(q: nat, d: nat)
    requires d < 10
    ensures (q * 10 + d) / 10 == q && (q * 10 + d) % 10 == d
  {
  }

  /** Round trip the other way: a canonical integer spelling is what str()
      gives back for the number it denotes. */
  lemma FormatParse(s: string)
    requires IsCanonicalInt(s)
    ensures ParseLiteral(s).Some? && IntToString(ParseLiteral(s).value) == s
  {
    if IsCanonicalNat(s) {
      var l := Literal(NoSign, s, None);
      assert Render(l) == s;
      LexRender(l);
      FormatValue(s);
    } else {
      var d := s[1..];
      var l := Literal(Minus, d, None);
      assert Render(l) == s;
      LexRender(l);
      FormatValue(d);
      ValuePositive(d);
    }
  }
}
