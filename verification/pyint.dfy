/**
  A model of Python's `int(text)` in base 10, the conversion the Charleston
  deed filter applies to the part of a token after its first character.
 */
module PyInt {
  import opened Results
  import opened PyStr

  function DigitValue(c: char): (v: nat)
    requires IsDigit(c)
    ensures v < 10
  {
    c as int - '0' as int
  }

  /** The value of a decimal digit string; leading zeros are allowed, as
      `int()` allows them. */
  function DecimalValue(d: string): nat
    requires AllDigits(d)
  {
    if d == [] then 0 else 10 * DecimalValue(d[..|d| - 1]) + DigitValue(d[|d| - 1])
  }

  /** The unsigned bodies `int()` accepts: digits, where an underscore may
      stand only between two digits. */
  predicate IsDigitGroups(b: string) {
    && b != []
    && IsDigit(b[0])
    && IsDigit(b[|b| - 1])
    && (forall i :: 0 <= i < |b| ==> IsDigit(b[i]) || b[i] == '_')
    && (forall i :: 0 <= i < |b| - 1 ==> b[i] == '_' ==> b[i + 1] != '_')
  }

  /** The digits of an accepted body, underscores dropped. */
  function GroupDigits(b: string): (d: string)
    requires IsDigitGroups(b)
    ensures AllDigits(d) && d != []
  {
    var d := RemoveAll(b, '_');
    RemoveAllKeepsOthers(b, '_');
    forall i | 0 <= i < |d| ensures IsDigit(d[i]) {
      assert d[i] in multiset(d);
      assert d[i] in multiset(b);
    }
    assert b[0] in multiset(b);
    assert b[0] in multiset(d);
    d
  }

  /** The ASCII information separators \x1c..\x1f. `str.isspace` counts
      them, but `int()` does not: it keeps ASCII text as it is and then skips
      only space and \t \n \v \f \r, while every non-ASCII space first
      becomes a plain space. */
  predicate IsSeparator(c: char) {
    '\U{1C}' <= c <= '\U{1F}'
  }

  predicate NoSeparator(s: string) {
    forall i :: 0 <= i < |s| ==> !IsSeparator(s[i])
  }

  /** The whitespace `int()` skips around the number. */
  predicate AllIntSpace(s: string) {
    forall i :: 0 <= i < |s| ==> IsSpace(s[i]) && !IsSeparator(s[i])
  }

  /** `int(s)`: surrounding whitespace is ignored, an optional sign may
      precede the digits, and anything else makes Python raise ValueError
      (None here). A separator is neither whitespace to `int()` nor part of a
      number, so text holding one never parses; on text without one the
      whitespace `int()` skips is exactly what `strip()` removes. */
  function ParseInt(s: string): (r: Option<int>)
    ensures r.Some? ==> Strip(s) != [] && NoSpace(Strip(s))
    ensures r.Some? ==> NoSeparator(s)
  {
    if NoSeparator(s) then ParseStripped(Strip(s)) else None
  }

  /** `int()` on the text once its surrounding whitespace is gone. */
  function ParseStripped(t: string): (r: Option<int>)
    ensures r.Some? ==> t != [] && NoSpace(t)
  {
    if t != [] && IsSign(t[0]) then
      var body := t[1..];
      if IsDigitGroups(body) then
        var v: int := DecimalValue(GroupDigits(body));
        assert NoSpace(t) by {
          forall i | 0 <= i < |t| ensures !IsSpace(t[i]) {
            if i > 0 { assert t[i] == body[i - 1]; }
          }
        }
        Some(if t[0] == '-' then -v else v)
      else None
    else if IsDigitGroups(t) then
      Some(DecimalValue(GroupDigits(t)))
    else None
  }

  /** A plain digit string is an accepted body and has no underscore to drop. */
  lemma GroupDigitsOfDigits(d: string)
    requires d != [] && AllDigits(d)
    ensures IsDigitGroups(d) && GroupDigits(d) == d
  {
    assert '_' !in d;
    RemoveAllAbsent(d, '_');
  }

  /** `int()` of an already stripped signed body. */
  lemma ParseIntOfSignedBody(s: string)
    requires Strip(s) == s && s != [] && IsSign(s[0]) && IsDigitGroups(s[1..])
    ensures ParseInt(s) == Some(var v: int := DecimalValue(GroupDigits(s[1..])); if s[0] == '-' then -v else v)
  {
    SignedHasNoSeparator(s);
  }

  lemma SignedHasNoSeparator(s: string)
    requires s != [] && IsSign(s[0]) && IsDigitGroups(s[1..])
    ensures NoSeparator(s)
  {
    forall i | 0 <= i < |s| ensures !IsSeparator(s[i]) {
      if i > 0 { assert s[i] == s[1..][i - 1]; }
    }
  }

  /** `int()` reads a plain digit string as its decimal value. */
  lemma ParseIntOfDigits(d: string)
    requires d != [] && AllDigits(d)
    ensures ParseInt(d) == Some(DecimalValue(d))
  {
    StripOfTrimmed(d);
    assert !IsSign(d[0]);
    GroupDigitsOfDigits(d);
  }

  /** A sign in front of a digit string negates (or keeps) its value. */
  lemma ParseIntOfSigned(sign: char, d: string)
    requires IsSign(sign) && d != [] && AllDigits(d)
    ensures ParseInt([sign] + d) == Some(if sign == '-' then -(DecimalValue(d) as int) else DecimalValue(d) as int)
  {
    var s := [sign] + d;
    SignedIsTrimmed(sign, d);
    GroupDigitsOfDigits(d);
    ParseIntOfSignedBody(s);
  }

  lemma SignedIsTrimmed(sign: char, d: string)
    requires IsSign(sign) && d != [] && AllDigits(d)
    ensures Strip([sign] + d) == [sign] + d && ([sign] + d)[1..] == d
  {
    var s := [sign] + d;
    assert s[0] == sign && s[|s| - 1] == d[|d| - 1];
    StripOfTrimmed(s);
  }

  /** Whitespace `int()` skips around the number is ignored. */
  lemma ParseIntIgnoresPadding(a: string, s: string, b: string)
    requires AllIntSpace(a) && AllIntSpace(b)
    ensures ParseInt(a + s + b) == ParseInt(s)
  {
    assert AllSpace(a) && AllSpace(b);
    StripIgnoresPadding(a, s, b);
    assert NoSeparator(a + s + b) <==> NoSeparator(s) by {
      if NoSeparator(s) {
        forall i | 0 <= i < |a + s + b| ensures !IsSeparator((a + s + b)[i]) {
          if i >= |a| && i < |a| + |s| { assert (a + s + b)[i] == s[i - |a|]; }
        }
      }
      if NoSeparator(a + s + b) {
        forall i | 0 <= i < |s| ensures !IsSeparator(s[i]) { assert s[i] == (a + s + b)[i + |a|]; }
      }
    }
  }

  /** Any character that is not a digit, a sign, an underscore or whitespace
      makes `int()` raise, wherever it stands: `int("B123")` and
      `int("12x")` are errors. */
  lemma ParseIntRejectsForeign(a: string, c: char, b: string)
    requires !IsDigit(c) && !IsSign(c) && c != '_' && !IsSpace(c)
    ensures ParseInt(a + [c] + b) == None
  {
    var s := a + [c] + b;
    if NoSeparator(s) {
      var lead, trail := StripSplits(s);
      var t := Strip(s);
      assert s[|a|] == c;
      KeptByStrip(s, lead, t, trail, |a|);
      ForeignBlocksParse(t, |a| - |lead|);
    }
  }

  /** A non-space character lies inside what `strip()` keeps. */
  lemma KeptByStrip(s: string, lead: string, t: string, trail: string, k: nat)
    requires s == lead + t + trail && AllSpace(lead) && AllSpace(trail)
    requires k < |s| && !IsSpace(s[k])
    ensures |lead| <= k < |lead| + |t| && t[k - |lead|] == s[k]
  {
  }

  /** Text that holds a foreign character is no numeral. */
  lemma ForeignBlocksParse(t: string, j: nat)
    requires j < |t| && !IsDigit(t[j]) && !IsSign(t[j]) && t[j] != '_'
    ensures ParseStripped(t) == None
  {
    if t != [] && IsSign(t[0]) {
      assert t[1..][j - 1] == t[j];
    }
  }

  /** A single underscore between two digit groups is allowed and does not
      count as a digit: `int("2_85") == 285`. */
  lemma ParseIntOfGrouped(d1: string, d2: string)
    requires d1 != [] && AllDigits(d1) && d2 != [] && AllDigits(d2)
    ensures ParseInt(d1 + "_" + d2) == Some(DecimalValue(d1 + d2))
  {
    var s := d1 + "_" + d2;
    assert s[0] == d1[0] && s[|s| - 1] == d2[|d2| - 1];
    StripOfTrimmed(s);
    GroupedIsDigitGroups(d1, d2);
    GroupedDigits(d1, d2);
  }

  lemma GroupedIsDigitGroups(d1: string, d2: string)
    requires d1 != [] && AllDigits(d1) && d2 != [] && AllDigits(d2)
    ensures IsDigitGroups(d1 + "_" + d2) && NoSeparator(d1 + "_" + d2)
  {
    var s := d1 + "_" + d2;
    forall i | 0 <= i < |s| ensures (IsDigit(s[i]) || s[i] == '_') && (s[i] == '_' <==> i == |d1|) {
      if i < |d1| { assert s[i] == d1[i]; }
      else if i > |d1| { assert s[i] == d2[i - |d1| - 1]; }
    }
    assert s[0] == d1[0] && s[|s| - 1] == d2[|d2| - 1];
  }

  lemma GroupedDigits(d1: string, d2: string)
    requires AllDigits(d1) && AllDigits(d2)
    ensures RemoveAll(d1 + "_" + d2, '_') == d1 + d2
  {
    assert '_' !in d1 && '_' !in d2;
    RemoveOneBetween(d1, '_', d2);
  }

  lemma RemoveOneBetween(x: string, c: char, y: string)
    requires c !in x && c !in y
    ensures RemoveAll(x + [c] + y, c) == x + y
  {
    var one := [c];
    assert RemoveAll(one, c) == [] by {
      assert one[1..] == [];
    }
    RemoveAllAppend(x, one, c);
    RemoveAllAbsent(x, c);
    assert RemoveAll(x + one, c) == x;
    RemoveAllAppend(x + one, y, c);
    RemoveAllAbsent(y, c);
  }

  /** A separator anywhere, even among the padding `strip()` would remove,
      makes `int()` raise. */
  lemma ParseIntRejectsSeparator(a: string, c: char, b: string)
    requires IsSeparator(c)
    ensures ParseInt(a + [c] + b) == None
  {
    assert (a + [c] + b)[|a|] == c;
  }

  /** Two digit groups separated by whitespace are not a number: this is what
      makes `int("285 112")` raise. */
  lemma ParseIntRejectsTwoNumbers(d1: string, sep: string, d2: string)
    requires d1 != [] && AllDigits(d1) && d2 != [] && AllDigits(d2)
    requires sep != [] && AllSpace(sep)
    ensures ParseInt(d1 + sep + d2) == None
  {
    var s := d1 + sep + d2;
    assert s[0] == d1[0] && s[|s| - 1] == d2[|d2| - 1];
    StripOfTrimmed(s);
    assert IsSpace(s[|d1|]);
  }
}
