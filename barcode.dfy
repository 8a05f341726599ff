/** The barcode normaliser clean_barcode: trim, drop invisible characters,
    read the value as a number and write it back as an integer; text that is
    not a number comes back trimmed but otherwise as it was. */
module Barcode {
  import opened Decimal

  /** A cell or an input before normalisation: pandas' null or a string. */
  datatype Cell = Null | Str(text: string)

  const ZeroWidthSpace: char := '\U{200B}'
  const NoBreakSpace: char := '\U{00A0}'

  /** The characters Python's str.strip() treats as whitespace: the ASCII
      controls 9-13 and 28-31, space, and the Unicode space and separator
      characters. U+00A0 is one of them; U+200B is not. */
  predicate IsSpace(c: char)
  {
    || c == ' ' || '\t' <= c <= '\r' || '\U{1C}' <= c <= '\U{1F}'
    || c == '\U{85}' || c == NoBreakSpace || c == '\U{1680}'
    || '\U{2000}' <= c <= '\U{200A}' || c == '\U{2028}' || c == '\U{2029}'
    || c == '\U{202F}' || c == '\U{205F}' || c == '\U{3000}'
  }

  /** The characters float() skips around a number. It reads ASCII
      characters as they are and skips only space, tab, LF, VT, FF and CR
      among them; every non-ASCII whitespace character counts as a space.
      So the separators U+001C-U+001F are whitespace to str.strip() and not
      to float(). */
  predicate IsFloatSpace(c: char)
  {
    IsSpace(c) && !('\U{1C}' <= c <= '\U{1F}')
  }

  /** Which of the two whitespace sets a strip uses. */
  datatype Blanks = StrBlanks | FloatBlanks

  predicate IsBlank(k: Blanks, c: char)
  {
    match k
    case StrBlanks => IsSpace(c)
    case FloatBlanks => IsFloatSpace(c)
  }

  predicate AllBlank(k: Blanks, s: string) { forall i :: 0 <= i < |s| ==> IsBlank(k, s[i]) }

  // ---------------------------------------------------------------------
  // Stripping: str.strip(), and the stripping float() does
  //
  // A strip scans for the first and the last character that is not
  // whitespace and keeps what lies between. The scanning functions carry no
  // quantified postconditions, so a term Strip(s) costs the verifier
  // little; what they compute is stated by the lemmas that follow them.

  /** The first index at or after i whose character is not whitespace, or
      |s| when there is none. */
  function SkipSpace(k: Blanks, s: string, i: nat): (j: nat)
    requires i <= |s|
    ensures i <= j <= |s|
    decreases |s| - i
  {
    if i < |s| && IsBlank(k, s[i]) then SkipSpace(k, s, i + 1) else i
  }

  /** The index just past the last character before j, and not before lo,
      that is not whitespace, or lo when there is none. */
  function SkipSpaceBack(k: Blanks, s: string, lo: nat, j: nat): (e: nat)
    requires lo <= j <= |s|
    ensures lo <= e <= j
    decreases j
  {
    if lo < j && IsBlank(k, s[j - 1]) then SkipSpaceBack(k, s, lo, j - 1) else j
  }

  /** Where the text a strip keeps begins. */
  function Start(k: Blanks, s: string): nat
    ensures Start(k, s) <= |s|
  {
    SkipSpace(k, s, 0)
  }

  /** Where the text a strip keeps ends. */
  function End(k: Blanks, s: string): nat
    ensures Start(k, s) <= End(k, s) <= |s|
  {
    SkipSpaceBack(k, s, Start(k, s), |s|)
  }

  /** s without its leading and trailing whitespace of kind k. */
  function StripWith(k: Blanks, s: string): string
  {
    s[Start(k, s)..End(k, s)]
  }

  /** str.strip(). */
  function Strip(s: string): string
  {
    StripWith(StrBlanks, s)
  }

  /** The whitespace a strip takes off the front of s. */
  function Leading(k: Blanks, s: string): string
  {
    s[..Start(k, s)]
  }

  /** The whitespace a strip takes off the back of s. */
  function Trailing(k: Blanks, s: string): string
  {
    s[End(k, s)..]
  }

  /** SkipSpace passes over whitespace only and stops at a character that
      is not whitespace, or at the end. */
  lemma {:induction false} SkipSpaceSpec(k: Blanks, s: string, i: nat)
    requires i <= |s|
    ensures forall m :: i <= m < SkipSpace(k, s, i) ==> IsBlank(k, s[m])
    ensures SkipSpace(k, s, i) < |s| ==> !IsBlank(k, s[SkipSpace(k, s, i)])
    decreases |s| - i
  {
    if i < |s| && IsBlank(k, s[i]) {
      SkipSpaceSpec(k, s, i + 1);
    }
  }

  /** SkipSpaceBack passes over whitespace only and stops after a character
      that is not whitespace, or at lo. */
  lemma {:induction false} SkipSpaceBackSpec(k: Blanks, s: string, lo: nat, j: nat)
    requires lo <= j <= |s|
    ensures forall m :: SkipSpaceBack(k, s, lo, j) <= m < j ==> IsBlank(k, s[m])
    ensures SkipSpaceBack(k, s, lo, j) > lo ==> !IsBlank(k, s[SkipSpaceBack(k, s, lo, j) - 1])
    decreases j
  {
    if lo < j && IsBlank(k, s[j - 1]) {
      SkipSpaceBackSpec(k, s, lo, j - 1);
    }
  }

  /** The place SkipSpace stops is the only e with whitespace from i up to
      it and something else (or the end) at it. */
  lemma {:induction false} SkipSpaceUnique(k: Blanks, s: string, i: nat, e: nat)
    requires i <= e <= |s|
    requires forall m :: i <= m < e ==> IsBlank(k, s[m])
    requires e < |s| ==> !IsBlank(k, s[e])
    ensures SkipSpace(k, s, i) == e
    decreases e - i
  {
    if i < e {
      assert IsBlank(k, s[i]);
      SkipSpaceUnique(k, s, i + 1, e);
    }
  }

  /** The place SkipSpaceBack stops is the only e with whitespace from it up
      to j and something else (or lo) just before it. */
  lemma {:induction false} SkipSpaceBackUnique(k: Blanks, s: string, lo: nat, j: nat, e: nat)
    requires lo <= e <= j <= |s|
    requires forall m :: e <= m < j ==> IsBlank(k, s[m])
    requires e > lo ==> !IsBlank(k, s[e - 1])
    ensures SkipSpaceBack(k, s, lo, j) == e
    decreases j - e
  {
    if e < j {
      assert IsBlank(k, s[j - 1]);
      SkipSpaceBackUnique(k, s, lo, j - 1, e);
    }
  }

  /** SkipSpace stops at or before any character that is not whitespace. */
  lemma {:induction false} SkipSpaceStops(k: Blanks, s: string, i: nat, e: nat)
    requires i <= e < |s| && !IsBlank(k, s[e])
    ensures SkipSpace(k, s, i) <= e
    decreases e - i
  {
    if IsBlank(k, s[i]) {
      SkipSpaceStops(k, s, i + 1, e);
    }
  }

  /** SkipSpaceBack stops just after, or after, any character at or after lo
      that is not whitespace. */
  lemma {:induction false} SkipSpaceBackStops(k: Blanks, s: string, lo: nat, j: nat, e: nat)
    requires lo <= e < j <= |s| && !IsBlank(k, s[e])
    ensures SkipSpaceBack(k, s, lo, j) > e
    decreases j
  {
    if IsBlank(k, s[j - 1]) {
      SkipSpaceBackStops(k, s, lo, j - 1, e);
    }
  }

  /** What a strip takes off either end is whitespace. */
  lemma StripRemovesSpace(k: Blanks, s: string)
    ensures AllBlank(k, Leading(k, s)) && AllBlank(k, Trailing(k, s))
  {
    SkipSpaceSpec(k, s, 0);
    SkipSpaceBackSpec(k, s, Start(k, s), |s|);
  }

  /** What a strip leaves neither starts nor ends with whitespace. */
  lemma StripEnds(k: Blanks, s: string)
    ensures var r := StripWith(k, s); r == [] || (!IsBlank(k, r[0]) && !IsBlank(k, r[|r| - 1]))
  {
    SkipSpaceSpec(k, s, 0);
    SkipSpaceBackSpec(k, s, Start(k, s), |s|);
  }

  /** A strip removes only whitespace, and only at the two ends, and what it
      leaves neither starts nor ends with whitespace. */
  lemma StripSplit(k: Blanks, s: string)
    ensures AllBlank(k, Leading(k, s)) && AllBlank(k, Trailing(k, s))
    ensures s == Leading(k, s) + StripWith(k, s) + Trailing(k, s)
    ensures var r := StripWith(k, s); r == [] || (!IsBlank(k, r[0]) && !IsBlank(k, r[|r| - 1]))
  {
    StripRemovesSpace(k, s);
    StripEnds(k, s);
    var a, b := Start(k, s), End(k, s);
    assert s == s[..a] + s[a..b] + s[b..];
  }

  /** A text that begins and ends with something other than whitespace is
      left by a strip as it is. */
  lemma StripUnpadded(k: Blanks, s: string)
    requires s == [] || (!IsBlank(k, s[0]) && !IsBlank(k, s[|s| - 1]))
    ensures StripWith(k, s) == s
  {
    SkipSpaceUnique(k, s, 0, 0);
    SkipSpaceBackUnique(k, s, 0, |s|, |s|);
    assert s[0..|s|] == s;
  }

  lemma StripIdempotent(k: Blanks, s: string)
    ensures StripWith(k, StripWith(k, s)) == StripWith(k, s)
  {
    StripEnds(k, s);
    StripUnpadded(k, StripWith(k, s));
  }

  /** A strip of a text framed by whitespace is the text inside the frame,
      when that text does not itself start or end with whitespace. */
  lemma StripFramed(k: Blanks, a: string, r: string, b: string)
    requires AllBlank(k, a) && AllBlank(k, b)
    requires r == [] || (!IsBlank(k, r[0]) && !IsBlank(k, r[|r| - 1]))
    ensures StripWith(k, a + r + b) == r
  {
    var t := a + r + b;
    var lo, hi := |a|, |a| + |r|;
    if r == [] {
      forall m | 0 <= m < |t| ensures IsBlank(k, t[m]) {
        if m < |a| { assert t[m] == a[m]; } else { assert t[m] == b[m - |a|]; }
      }
      SkipSpaceUnique(k, t, 0, |t|);
    } else {
      forall m | 0 <= m < lo ensures IsBlank(k, t[m]) {
        assert t[m] == a[m];
      }
      assert t[lo] == r[0];
      SkipSpaceUnique(k, t, 0, lo);
      forall m | hi <= m < |t| ensures IsBlank(k, t[m]) {
        assert t[m] == b[m - hi];
      }
      assert t[hi - 1] == r[|r| - 1];
      SkipSpaceBackUnique(k, t, lo, |t|, hi);
      assert t[lo..hi] == r;
    }
  }

  /** Whitespace added at either end makes no difference to a strip. */
  lemma StripPadded(k: Blanks, a: string, y: string, b: string)
    requires AllBlank(k, a) && AllBlank(k, b)
    ensures StripWith(k, a + y + b) == StripWith(k, y)
  {
    StripSplit(k, y);
    var p, r, q := Leading(k, y), StripWith(k, y), Trailing(k, y);
    AllBlankConcat(k, a, p);
    AllBlankConcat(k, q, b);
    assert a + y + b == (a + p) + r + (q + b);
    StripFramed(k, a + p, r, q + b);
  }

  lemma AllBlankConcat(k: Blanks, a: string, b: string)
    requires AllBlank(k, a) && AllBlank(k, b)
    ensures AllBlank(k, a + b)
  {
    forall m | 0 <= m < |a + b| ensures IsBlank(k, (a + b)[m]) {
      if m < |a| { assert (a + b)[m] == a[m]; } else { assert (a + b)[m] == b[m - |a|]; }
    }
  }

  /** A strip of pre + r + post, where r starts and ends with something
      other than whitespace, keeps all of r, and of pre and post only what
      lies next to r. */
  lemma StripAround(k: Blanks, pre: string, r: string, post: string)
    requires r != [] && !IsBlank(k, r[0]) && !IsBlank(k, r[|r| - 1])
    ensures var x := pre + r + post;
      && Start(k, x) <= |pre| && |pre| + |r| <= End(k, x)
      && StripWith(k, x) == pre[Start(k, x)..] + r + post[..End(k, x) - |pre| - |r|]
  {
    var x := pre + r + post;
    var a, b := |pre|, |pre| + |r|;
    assert x[a] == r[0] && x[b - 1] == r[|r| - 1];
    SkipSpaceStops(k, x, 0, a);
    SkipSpaceBackStops(k, x, Start(k, x), |x|, b - 1);
    var s, e := Start(k, x), End(k, x);
    assert x[s..e] == x[s..a] + x[a..b] + x[b..e];
    assert x[s..a] == pre[s..];
    assert x[a..b] == r;
    assert x[b..e] == post[..e - b];
  }

  /** A non-space character of s survives a strip. */
  lemma StripKeeps(k: Blanks, s: string, c: char)
    requires c in s && !IsBlank(k, c)
    ensures c in StripWith(k, s)
  {
    StripSplit(k, s);
    var a, b := Leading(k, s), Trailing(k, s);
    assert c !in a && c !in b;
  }

  // ---------------------------------------------------------------------
  // str.replace(c, '')

  /** s.replace(c, ''): every occurrence of c removed, the rest in order. */
  function RemoveChar(s: string, c: char): string
  {
    if s == [] then [] else (if s[0] == c then [] else [s[0]]) + RemoveChar(s[1..], c)
  }

  /** RemoveChar removes every c and keeps every other character with its
      multiplicity. */
  lemma {:induction false} RemoveCharCount(s: string, c: char)
    ensures multiset(RemoveChar(s, c)) == multiset(s)[c := 0]
    decreases |s|
  {
    if s != [] {
      assert s == [s[0]] + s[1..];
      RemoveCharCount(s[1..], c);
    }
  }

  lemma {:induction false} RemoveCharConcat(a: string, b: string, c: char)
    ensures RemoveChar(a + b, c) == RemoveChar(a, c) + RemoveChar(b, c)
    decreases |a|
  {
    if a != [] {
      assert (a + b)[1..] == a[1..] + b;
      RemoveCharConcat(a[1..], b, c);
    } else {
      assert a + b == b;
    }
  }

  lemma {:induction false} RemoveCharAbsent(s: string, c: char)
    requires c !in s
    ensures RemoveChar(s, c) == s
    decreases |s|
  {
    if s != [] {
      RemoveCharAbsent(s[1..], c);
    }
  }

  /** .replace('\u200b','').replace('\u00A0',''): zero-width and
      no-break spaces removed, everything else kept in order. */
  function RemoveInvisible(s: string): string
  {
    RemoveChar(RemoveChar(s, ZeroWidthSpace), NoBreakSpace)
  }

  /** No U+200B or U+00A0 is left, and every other character keeps its
      multiplicity. */
  lemma RemoveInvisibleCount(s: string)
    ensures ZeroWidthSpace !in RemoveInvisible(s) && NoBreakSpace !in RemoveInvisible(s)
    ensures forall c :: c != ZeroWidthSpace && c != NoBreakSpace ==>
      multiset(RemoveInvisible(s))[c] == multiset(s)[c]
  {
    var r := RemoveInvisible(s);
    RemoveCharCount(s, ZeroWidthSpace);
    RemoveCharCount(RemoveChar(s, ZeroWidthSpace), NoBreakSpace);
    assert multiset(r)[ZeroWidthSpace] == 0 && multiset(r)[NoBreakSpace] == 0;
  }

  lemma RemoveInvisibleConcat(a: string, b: string)
    ensures RemoveInvisible(a + b) == RemoveInvisible(a) + RemoveInvisible(b)
  {
    RemoveCharConcat(a, b, ZeroWidthSpace);
    RemoveCharConcat(RemoveChar(a, ZeroWidthSpace), RemoveChar(b, ZeroWidthSpace), NoBreakSpace);
  }

  lemma RemoveInvisibleAbsent(s: string)
    requires ZeroWidthSpace !in s && NoBreakSpace !in s
    ensures RemoveInvisible(s) == s
  {
    RemoveCharAbsent(s, ZeroWidthSpace);
    RemoveCharAbsent(s, NoBreakSpace);
  }

  /** A text made of float() whitespace and zero-width spaces: what may
      surround a number and still let it be read. */
  predicate AllPadding(s: string)
  {
    forall i :: 0 <= i < |s| ==> IsFloatSpace(s[i]) || s[i] == ZeroWidthSpace
  }

  /** Once the invisible characters are gone, padding is float() whitespace
      only. */
  lemma RemoveInvisiblePadding(s: string)
    requires AllPadding(s)
    ensures AllBlank(FloatBlanks, RemoveInvisible(s))
  {
    var r := RemoveInvisible(s);
    RemoveInvisibleCount(s);
    forall i | 0 <= i < |r| ensures IsFloatSpace(r[i]) {
      var c := r[i];
      assert multiset(r)[c] > 0;
      if c != ZeroWidthSpace && c != NoBreakSpace {
        assert c in multiset(s);
      }
    }
  }

  /** Every part of a text that is padding is padding. */
  lemma PaddingSlice(s: string, i: nat, j: nat)
    requires AllPadding(s) && i <= j <= |s|
    ensures AllPadding(s[i..j])
  {
    forall m | 0 <= m < j - i ensures IsFloatSpace(s[i..j][m]) || s[i..j][m] == ZeroWidthSpace {
      assert s[i..j][m] == s[i + m];
    }
  }

  // ---------------------------------------------------------------------
  // clean_barcode

  /** The whitespace float() skips around a number: the float() whitespace
      set, taken off both ends. */
  function FloatStrip(s: string): string
  {
    StripWith(FloatBlanks, s)
  }

  /** int(float(s)) where that succeeds for a plain decimal literal: float()
      skips its own whitespace around the number. */
  function ParseNumber(s: string): Option<int>
  {
    ParseLiteral(FloatStrip(s))
  }

  /** clean_barcode(val). Null and "" give "". Otherwise the trimmed text
      with U+200B and U+00A0 removed is read as a number; if it is one, the
      result is its integer part as str() writes it, and if it is not, the
      result is the original text trimmed (invisible characters kept). */
  function Clean(v: Cell): string
  {
    match v
    case Null => ""
    case Str(x) =>
      if x == "" then ""
      else
        match ParseNumber(RemoveInvisible(Strip(x)))
        case Some(n) => IntToString(n)
        case None => Strip(x)
  }

  /** Null and "" give ""; any other result is either a canonical integer
      spelling or the input with its surrounding whitespace removed. */
  lemma CleanShape(v: Cell)
    ensures v.Null? || v.text == "" ==> Clean(v) == ""
    ensures Clean(v) == "" || IsCanonicalInt(Clean(v)) || (v.Str? && Clean(v) == Strip(v.text))
  {
    if v.Str? && v.text != "" {
      var p := ParseNumber(RemoveInvisible(Strip(v.text)));
      if p.Some? {
        IntToStringSpec(p.value);
      }
    }
  }

  /** A decimal literal with float() whitespace and zero-width spaces around
      it normalises to its integer part, truncated toward zero: "1234.0"
      gives "1234", "-3.7" gives "-3", " 1234\u200b" gives "1234", "007"
      gives "7". */
  lemma CleanTruncates(pre: string, l: Literal, post: string)
    requires AllPadding(pre) && AllPadding(post) && WellFormed(l)
    ensures Clean(Str(pre + Render(l) + post)) == IntToString(Truncate(l))
  {
    var lit := Render(l);
    RenderChars(l);
    assert lit != [] by {
      assert l.whole != [] || |FracText(l.frac)| > 1;
    }
    PaddedLiteral(pre, lit, post);
    LexRender(l);
  }

  /** Around a literal, whitespace and zero-width spaces are gone by the
      time float() has read past its own whitespace: the trim takes what
      str.strip() counts as whitespace from the outside, the replace calls
      take the invisible characters, and float() the rest. */
  lemma PaddedLiteral(pre: string, lit: string, post: string)
    requires AllPadding(pre) && AllPadding(post)
    requires lit != [] && forall i :: 0 <= i < |lit| ==> IsLiteralChar(lit[i])
    ensures FloatStrip(RemoveInvisible(Strip(pre + lit + post))) == lit
  {
    LiteralTextUntouched(lit);
    var x := pre + lit + post;
    StripAround(StrBlanks, pre, lit, post);
    var s, e := Start(StrBlanks, x), End(StrBlanks, x) - |pre| - |lit|;
    var p, q := pre[s..], post[..e];
    PaddingSlice(pre, s, |pre|);
    PaddingSlice(post, 0, e);
    RemoveInvisibleConcat(p + lit, q);
    RemoveInvisibleConcat(p, lit);
    RemoveInvisiblePadding(p);
    RemoveInvisiblePadding(q);
    StripFramed(FloatBlanks, RemoveInvisible(p), lit, RemoveInvisible(q));
  }

  /** A text holding a character that can be neither part of a number nor
      removed comes back only trimmed: "ABC-1" gives "ABC-1", and
      "ABC\u200b" keeps its zero-width space. */
  lemma CleanKeepsText(x: string, i: nat)
    requires i < |x|
    requires !IsLiteralChar(x[i]) && !IsSpace(x[i]) && x[i] != ZeroWidthSpace
    ensures Clean(Str(x)) == Strip(x)
  {
    var c := x[i];
    StripKeeps(StrBlanks, x, c);
    var y := RemoveInvisible(Strip(x));
    RemoveInvisibleCount(Strip(x));
    assert multiset(Strip(x))[c] > 0;
    assert c in y by {
      assert multiset(y)[c] > 0;
    }
    StripKeeps(FloatBlanks, y, c);
    var t := FloatStrip(y);
    var j :| 0 <= j < |t| && t[j] == c;
    ParseRejects(t, j);
  }

  /** A text made only of sign, digit and point characters is untouched by
      either trim and by the removal of invisible characters. */
  lemma LiteralTextUntouched(t: string)
    requires t != [] && forall i :: 0 <= i < |t| ==> IsLiteralChar(t[i])
    ensures Strip(t) == t && RemoveInvisible(t) == t && FloatStrip(t) == t
    ensures !IsSpace(t[0]) && !IsSpace(t[|t| - 1])
  {
    assert !IsSpace(t[0]) && !IsSpace(t[|t| - 1]);
    StripUnpadded(StrBlanks, t);
    StripUnpadded(FloatBlanks, t);
    assert ZeroWidthSpace !in t && NoBreakSpace !in t;
    RemoveInvisibleAbsent(t);
  }

  /** An integer already in str() form is its own normal form. */
  lemma CleanCanonical(s: string)
    requires IsCanonicalInt(s)
    ensures Clean(Str(s)) == s
  {
    CanonicalChars(s);
    LiteralTextUntouched(s);
    FormatParse(s);
    assert ParseNumber(RemoveInvisible(Strip(s))) == ParseLiteral(s);
  }

  /** The fallback result is stable: its own trimmed text still does not
      read as a number. */
  lemma FallbackStable(x: string)
    requires x != [] && ParseNumber(RemoveInvisible(Strip(x))) == None
    ensures Clean(Str(Strip(x))) == Strip(x)
  {
    var r := Strip(x);
    if r != [] {
      StripIdempotent(StrBlanks, x);
      assert ParseNumber(RemoveInvisible(Strip(r))) == None;
    }
  }

  /** clean_barcode(clean_barcode(x)) == clean_barcode(x), on the numeric
      branch and on the fallback alike. */
  lemma CleanIdempotent(v: Cell)
    ensures Clean(Str(Clean(v))) == Clean(v)
  {
    if v.Str? && v.text != "" {
      var x := v.text;
      var p := ParseNumber(RemoveInvisible(Strip(x)));
      if p.Some? {
        assert Clean(v) == IntToString(p.value);
        IntToStringSpec(p.value);
        CleanCanonical(IntToString(p.value));
      } else {
        assert Clean(v) == Strip(x);
        FallbackStable(x);
      }
    }
  }

  // The cases quoted for clean_barcode, worked out.

  lemma ExampleWholeFloat()
    ensures Clean(Str("1234.0")) == "1234"
  {
    var l := Literal(NoSign, "1234", Some("0"));
    assert Render(l) == "1234" + ".0";
    assert "" + ("1234" + ".0") + "" == "1234.0";
    CleanTruncates("", l, "");
    FormatValue("1234");
  }

  lemma ExampleNegativeFraction()
    ensures Clean(Str("-3.7")) == "-3"
  {
    var l := Literal(Minus, "3", Some("7"));
    assert Render(l) == "-" + "3" + ".7";
    assert "" + ("-" + "3" + ".7") + "" == "-3.7";
    CleanTruncates("", l, "");
    MinusThree(l);
  }

  lemma MinusThree(l: Literal)
    requires l == Literal(Minus, "3", Some("7"))
    ensures IntToString(Truncate(l)) == "-3"
  {
    assert "3"[..0] == "";
    assert Decimal.Value("3") == 3;
    assert IntToString(-3) == "-" + [DigitChar(3)];
  }

  lemma ExamplePadded()
    ensures Clean(Str(" 1234\U{200B}")) == "1234"
  {
    var l := Literal(NoSign, "1234", None);
    assert " 1234\U{200B}" == " " + Render(l) + "\U{200B}";
    CleanTruncates(" ", l, "\U{200B}");
    FormatValue("1234");
  }

  lemma ExampleText()
    ensures Clean(Str("ABC-1")) == "ABC-1"
  {
    CleanKeepsText("ABC-1", 0);
    StripUnpadded(StrBlanks, "ABC-1");
  }

  lemma ExampleTextKeepsZeroWidthSpace()
    ensures Clean(Str("ABC\U{200B}")) == "ABC\U{200B}"
  {
    CleanKeepsText("ABC\U{200B}", 0);
    StripUnpadded(StrBlanks, "ABC\U{200B}");
  }

  /** U+001C is whitespace to str.strip() but not to float(). Behind a
      zero-width space, which the trim does not take, it reaches float(),
      which rejects it; so "\u200b\x1c5" is not a number and comes back as
      it was. */
  lemma ExampleFileSeparator()
    ensures Clean(Str("\U{200B}\U{1C}5")) == "\U{200B}\U{1C}5"
  {
    var x := "\U{200B}\U{1C}5";
    StripUnpadded(StrBlanks, x);
    assert RemoveChar(x, ZeroWidthSpace) == "\U{1C}5" by {
      assert x[1..][1..][1..] == [];
    }
    assert RemoveInvisible(x) == "\U{1C}5" by {
      assert "\U{1C}5"[1..][1..] == [];
    }
    StripUnpadded(FloatBlanks, "\U{1C}5");
    ParseRejects("\U{1C}5", 0);
  }

  lemma ExampleTrailingSpace()
    ensures Clean(Str("4001.0 ")) == "4001"
  {
    var l := Literal(NoSign, "4001", Some("0"));
    assert Render(l) == "4001" + ".0";
    assert "" + ("4001" + ".0") + " " == "4001.0 ";
    CleanTruncates("", l, " ");
    FormatValue("4001");
  }

  lemma ExampleCanonical()
    ensures Clean(Str("4001")) == "4001"
  {
    assert IsCanonicalInt("4001");
    CleanCanonical("4001");
  }
}
