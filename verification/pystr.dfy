/**
  Models of the Python `str` and `os.path` operations that scraper.py relies on.
  `isspace` is Python's full whitespace set; `isalpha`, `isdigit` and `lower`
  are stated for the ASCII range only.
 */
module PyStr {
  import opened Results

  /** `str.isspace`: space, \t \n \v \f \r, the information separators
      \x1c..\x1f, and the Unicode spaces Python also counts: U+0085, the
      no-break space U+00A0 (what `&nbsp;` becomes), U+1680, U+2000..U+200A,
      U+2028, U+2029, U+202F, U+205F and U+3000. */
  predicate IsSpace(c: char) {
    || c == ' ' || ('\t' <= c <= '\r') || ('\U{1C}' <= c <= '\U{1F}')
    || c == '\U{85}' || c == '\U{A0}' || c == '\U{1680}' || ('\U{2000}' <= c <= '\U{200A}')
    || c == '\U{2028}' || c == '\U{2029}' || c == '\U{202F}' || c == '\U{205F}' || c == '\U{3000}'
  }

  /** `str.isalpha` on an ASCII character. */
  predicate IsAlpha(c: char) {
    ('A' <= c <= 'Z') || ('a' <= c <= 'z')
  }

  /** `str.isdigit` on an ASCII character. */
  predicate IsDigit(c: char) {
    '0' <= c <= '9'
  }

  predicate AllSpace(s: string) {
    forall i :: 0 <= i < |s| ==> IsSpace(s[i])
  }

  predicate NoSpace(s: string) {
    forall i :: 0 <= i < |s| ==> !IsSpace(s[i])
  }

  predicate AllDigits(s: string) {
    forall i :: 0 <= i < |s| ==> IsDigit(s[i])
  }

  /** Length of the longest all-whitespace prefix of `s`. */
  function LeadingSpace(s: string): (k: nat)
    ensures k <= |s|
    ensures forall i :: 0 <= i < k ==> IsSpace(s[i])
    ensures k < |s| ==> !IsSpace(s[k])
  {
    if |s| > 0 && IsSpace(s[0]) then 1 + LeadingSpace(s[1..]) else 0
  }

  /** Length of the longest all-whitespace suffix of `s`. */
  function TrailingSpace(s: string): (k: nat)
    ensures k <= |s|
    ensures forall i :: |s| - k <= i < |s| ==> IsSpace(s[i])
    ensures k < |s| ==> !IsSpace(s[|s| - 1 - k])
  {
    if |s| > 0 && IsSpace(s[|s| - 1]) then 1 + TrailingSpace(s[..|s| - 1]) else 0
  }

  /** `str.strip()` with no argument: the text between the leading and the
      trailing whitespace. */
  function Strip(s: string): (r: string)
    ensures r == [] || (!IsSpace(r[0]) && !IsSpace(r[|r| - 1]))
  {
    var rest := s[LeadingSpace(s)..];
    rest[..|rest| - TrailingSpace(rest)]
  }

  lemma LeadingSpaceStops(s: string, k: nat)
    requires k < |s| && AllSpace(s[..k]) && !IsSpace(s[k])
    ensures LeadingSpace(s) == k
  {
    assert forall i :: 0 <= i < k ==> IsSpace(s[i]) by {
      forall i | 0 <= i < k ensures IsSpace(s[i]) { assert s[..k][i] == s[i]; }
    }
    var j := LeadingSpace(s);
    assert forall i :: 0 <= i < j ==> IsSpace(s[i]) by {
      forall i | 0 <= i < j ensures IsSpace(s[i]) { assert s[..j][i] == s[i]; }
    }
  }

  lemma LeadingSpaceAll(s: string)
    requires AllSpace(s)
    ensures LeadingSpace(s) == |s|
  {
  }

  lemma TrailingSpaceStops(s: string, k: nat)
    requires k < |s| && AllSpace(s[|s| - k..]) && !IsSpace(s[|s| - 1 - k])
    ensures TrailingSpace(s) == k
  {
    assert forall i :: |s| - k <= i < |s| ==> IsSpace(s[i]) by {
      forall i | |s| - k <= i < |s| ensures IsSpace(s[i]) { assert s[|s| - k..][i - (|s| - k)] == s[i]; }
    }
    var j := TrailingSpace(s);
    assert forall i :: |s| - j <= i < |s| ==> IsSpace(s[i]) by {
      forall i | |s| - j <= i < |s| ensures IsSpace(s[i]) { assert s[|s| - j..][i - (|s| - j)] == s[i]; }
    }
  }

  /** Whitespace followed by a non-space: the leading whitespace is exactly
      the first part. */
  lemma LeadingSpaceOf(a: string, t: string)
    requires AllSpace(a) && t != [] && !IsSpace(t[0])
    ensures LeadingSpace(a + t) == |a| && (a + t)[|a|..] == t
  {
    var s := a + t;
    assert s[..|a|] == a;
    assert s[|a|] == t[0];
    LeadingSpaceStops(s, |a|);
  }

  /** Text ending in a non-space followed by whitespace: the trailing
      whitespace is exactly the second part. */
  lemma TrailingSpaceOf(t: string, b: string)
    requires AllSpace(b) && t != [] && !IsSpace(t[|t| - 1])
    ensures TrailingSpace(t + b) == |b| && (t + b)[..|t|] == t
  {
    var s := t + b;
    assert s[|s| - |b|..] == b;
    assert s[|s| - 1 - |b|] == t[|t| - 1];
    TrailingSpaceStops(s, |b|);
  }

  /** Two runs of whitespace strip to nothing. */
  lemma StripOfBlank(a: string, b: string)
    requires AllSpace(a) && AllSpace(b)
    ensures Strip(a + b) == []
  {
    AllSpaceAppend(a, b);
    LeadingSpaceAll(a + b);
  }

  /** `strip()` is characterised by its result: whenever `s` is whitespace,
      then `m`, then whitespace, and `m` neither starts nor ends with
      whitespace, `strip()` returns `m`. */
  lemma StripUnique(s: string, a: string, m: string, b: string)
    requires s == a + m + b && AllSpace(a) && AllSpace(b)
    requires m == [] || (!IsSpace(m[0]) && !IsSpace(m[|m| - 1]))
    ensures Strip(s) == m
  {
    if m == [] {
      assert s == a + b;
      StripOfBlank(a, b);
    } else {
      Assoc(a, m, b);
      assert (m + b)[0] == m[0];
      LeadingSpaceOf(a, m + b);
      TrailingSpaceOf(m, b);
    }
  }

  /** A string that starts and ends with a non-space character is its own strip. */
  lemma StripOfTrimmed(s: string)
    requires s == [] || (!IsSpace(s[0]) && !IsSpace(s[|s| - 1]))
    ensures Strip(s) == s
  {
    StripUnique(s, [], s, []);
  }

  /** Stripping twice is stripping once. */
  lemma StripIdempotent(s: string)
    ensures Strip(Strip(s)) == Strip(s)
  {
    StripOfTrimmed(Strip(s));
  }

  /** A string is its prefix followed by the rest. */
  lemma SplitAt(x: string, n: nat)
    requires n <= |x|
    ensures x[..n] + x[n..] == x
  {
  }

  lemma Assoc(x: string, y: string, z: string)
    ensures x + (y + z) == x + y + z
  {
  }

  /** Every string is its leading whitespace, its strip and its trailing
      whitespace. */
  lemma StripSplits(s: string) returns (a: string, b: string)
    ensures s == a + Strip(s) + b && AllSpace(a) && AllSpace(b)
  {
    var rest;
    a, rest := LeadingSplit(s);
    var m;
    m, b := TrailingSplit(rest);
    Assoc(a, m, b);
  }

  lemma LeadingSplit(s: string) returns (a: string, rest: string)
    ensures s == a + rest && AllSpace(a) && rest == s[LeadingSpace(s)..]
  {
    var k := LeadingSpace(s);
    a, rest := s[..k], s[k..];
    SplitAt(s, k);
  }

  lemma TrailingSplit(x: string) returns (m: string, b: string)
    ensures x == m + b && AllSpace(b) && m == x[..|x| - TrailingSpace(x)]
  {
    var n := |x| - TrailingSpace(x);
    m, b := x[..n], x[n..];
    SplitAt(x, n);
  }

  lemma Regroup(a: string, x: string, m: string, y: string, b: string)
    ensures a + (x + m + y) + b == (a + x) + m + (y + b)
  {
  }

  lemma AllSpaceAppend(x: string, y: string)
    requires AllSpace(x) && AllSpace(y)
    ensures AllSpace(x + y)
  {
    forall i | 0 <= i < |x + y| ensures IsSpace((x + y)[i]) {
      if i >= |x| { assert (x + y)[i] == y[i - |x|]; }
    }
  }

  /** Surrounding whitespace does not change what `strip()` returns. */
  lemma StripIgnoresPadding(a: string, s: string, b: string)
    requires AllSpace(a) && AllSpace(b)
    ensures Strip(a + s + b) == Strip(s)
  {
    var a', b' := StripSplits(s);
    var m := Strip(s);
    Regroup(a, a', m, b', b);
    AllSpaceAppend(a, a');
    AllSpaceAppend(b', b);
    StripUnique(a + s + b, a + a', m, b' + b);
  }

  /** ASCII case folding as done by `str.lower()`. */
  function LowerChar(c: char): (d: char)
  {
    if 'A' <= c <= 'Z' then (c as int + 32) as char else c
  }

  /** `str.lower()`: every upper-case ASCII letter replaced by its lower-case
      form, every other character kept, positions unchanged. */
  function Lower(s: string): (r: string)
    ensures |r| == |s|
    ensures forall i :: 0 <= i < |s| ==> r[i] == LowerChar(s[i])
  {
    if s == [] then [] else [LowerChar(s[0])] + Lower(s[1..])
  }

  /** Two strings are equal up to ASCII letter case. */
  predicate EqualIgnoringCase(s: string, t: string) {
    |s| == |t| && forall i :: 0 <= i < |s| ==> LowerChar(s[i]) == LowerChar(t[i])
  }

  /** Text without upper-case ASCII letters is its own `lower()`. */
  lemma LowerOfLowercase(s: string)
    requires forall i :: 0 <= i < |s| ==> !('A' <= s[i] <= 'Z')
    ensures Lower(s) == s
  {
  }

  /** Comparing `s.lower()` with an all-lower-case literal is a case-insensitive
      comparison with that literal. */
  lemma LowerMatchesLiteral(s: string, lit: string)
    requires Lower(lit) == lit
    ensures Lower(s) == lit <==> EqualIgnoringCase(s, lit)
  {
    if EqualIgnoringCase(s, lit) {
      assert forall i :: 0 <= i < |s| ==> Lower(s)[i] == lit[i] by {
        forall i | 0 <= i < |s| ensures Lower(s)[i] == lit[i] {
          assert Lower(lit)[i] == LowerChar(lit[i]);
        }
      }
    }
    if Lower(s) == lit {
      forall i | 0 <= i < |s| ensures LowerChar(s[i]) == LowerChar(lit[i]) {
        assert Lower(lit)[i] == LowerChar(lit[i]);
      }
    }
  }

  /** `s.replace(c, '')` for a one-character `c`. */
  function RemoveAll(s: string, c: char): (r: string)
    ensures c !in r
    ensures |r| <= |s|
  {
    if s == [] then [] else (if s[0] == c then [] else [s[0]]) + RemoveAll(s[1..], c)
  }

  /** Every character other than `c` occurs as often after the removal as
      before it. */
  lemma {:induction false} RemoveAllKeepsOthers(s: string, c: char)
    ensures forall d :: d != c ==> multiset(RemoveAll(s, c))[d] == multiset(s)[d]
  {
    if s != [] {
      RemoveAllKeepsOthers(s[1..], c);
      assert s == [s[0]] + s[1..];
    }
  }

  /** Removing a character works piecewise: order and repetitions of the
      other characters are kept. */
  lemma {:induction false} RemoveAllAppend(s: string, t: string, c: char)
    ensures RemoveAll(s + t, c) == RemoveAll(s, c) + RemoveAll(t, c)
  {
    if s != [] {
      assert (s + t)[1..] == s[1..] + t;
      RemoveAllAppend(s[1..], t, c);
    } else {
      assert s + t == t;
    }
  }

  /** A string without `c` is left unchanged. */
  lemma {:induction false} RemoveAllAbsent(s: string, c: char)
    requires c !in s
    ensures RemoveAll(s, c) == s
  {
    if s != [] {
      RemoveAllAbsent(s[1..], c);
    }
  }

  /** `str.index(c)` as an Option: the position of the first `c`, or None
      where Python raises ValueError. */
  function Index(s: string, c: char): (r: Option<nat>)
    ensures r.None? <==> c !in s
    ensures r.Some? ==> r.value < |s| && s[r.value] == c && c !in s[..r.value]
  {
    if s == [] then None
    else if s[0] == c then Some(0)
    else match Index(s[1..], c)
      case None => None
      case Some(k) =>
        assert s[..k + 1] == [s[0]] + s[1..][..k];
        Some(k + 1)
  }

  /** Length of the longest prefix of `s` without whitespace. */
  function WordLength(s: string): (k: nat)
    ensures k <= |s|
    ensures forall i :: 0 <= i < k ==> !IsSpace(s[i])
    ensures k < |s| ==> IsSpace(s[k])
  {
    if |s| > 0 && !IsSpace(s[0]) then 1 + WordLength(s[1..]) else 0
  }

  /** `str.split()` with no argument: the maximal runs of non-whitespace
      characters, in order. */
  function Split(s: string): (ws: seq<string>)
    ensures forall i :: 0 <= i < |ws| ==> ws[i] != [] && NoSpace(ws[i])
    decreases |s|
  {
    var k := LeadingSpace(s);
    if k == |s| then []
    else
      var rest := s[k..];
      var w := WordLength(rest);
      [rest[..w]] + Split(rest[w..])
  }

  /** The characters of `s` that are not whitespace, in order. */
  function NonSpace(s: string): (r: string)
  {
    if s == [] then [] else (if IsSpace(s[0]) then [] else [s[0]]) + NonSpace(s[1..])
  }

  function Concat(ws: seq<string>): string {
    if ws == [] then [] else ws[0] + Concat(ws[1..])
  }

  lemma {:induction false} NonSpaceAppend(s: string, t: string)
    ensures NonSpace(s + t) == NonSpace(s) + NonSpace(t)
  {
    if s != [] {
      assert (s + t)[1..] == s[1..] + t;
      NonSpaceAppend(s[1..], t);
    } else {
      assert s + t == t;
    }
  }

  lemma {:induction false} NonSpaceOfAllSpace(s: string)
    requires AllSpace(s)
    ensures NonSpace(s) == []
  {
    if s != [] { NonSpaceOfAllSpace(s[1..]); }
  }

  lemma {:induction false} NonSpaceOfNoSpace(s: string)
    requires NoSpace(s)
    ensures NonSpace(s) == s
  {
    if s != [] { NonSpaceOfNoSpace(s[1..]); }
  }

  lemma ConcatCons(w: string, ws: seq<string>)
    ensures Concat([w] + ws) == w + Concat(ws)
  {
    assert ([w] + ws)[1..] == ws;
  }

  /** A string that is all whitespace splits into nothing. */
  lemma SplitOfBlank(s: string)
    requires LeadingSpace(s) == |s|
    ensures Split(s) == [] && NonSpace(s) == []
  {
    assert s[..|s|] == s;
    NonSpaceOfAllSpace(s);
  }

  /** Leading whitespace contributes no non-whitespace characters. */
  lemma NonSpaceAfterLeading(s: string)
    ensures NonSpace(s) == NonSpace(s[LeadingSpace(s)..])
  {
    var k := LeadingSpace(s);
    assert s == s[..k] + s[k..];
    NonSpaceAppend(s[..k], s[k..]);
    NonSpaceOfAllSpace(s[..k]);
  }

  /** A whitespace-free prefix is kept whole. */
  lemma NonSpaceOfWordThen(w: string, tail: string)
    requires NoSpace(w)
    ensures NonSpace(w + tail) == w + NonSpace(tail)
  {
    NonSpaceAppend(w, tail);
    NonSpaceOfNoSpace(w);
  }

  /** Otherwise its split is the first word, then the split of what follows
      that word. */
  lemma SplitOfWord(s: string) returns (w: string, tail: string)
    requires LeadingSpace(s) < |s|
    ensures Split(s) == [w] + Split(tail)
    ensures NonSpace(s) == w + NonSpace(tail)
    ensures |tail| < |s|
  {
    var rest := s[LeadingSpace(s)..];
    var n := WordLength(rest);
    w, tail := rest[..n], rest[n..];
    NonSpaceAfterLeading(s);
    assert rest == w + tail;
    NonSpaceOfWordThen(w, tail);
  }

  /** The words of `split()`, put back together, are exactly the
      non-whitespace characters of the input: nothing is lost, reordered or
      invented. */
  lemma {:induction false} SplitLosesOnlySpace(s: string)
    ensures Concat(Split(s)) == NonSpace(s)
    decreases |s|
  {
    if LeadingSpace(s) == |s| {
      SplitOfBlank(s);
    } else {
      var w, tail := SplitOfWord(s);
      SplitLosesOnlySpace(tail);
      ConcatCons(w, Split(tail));
    }
  }

  /** A word followed by whitespace (or nothing) is the first word of the split. */
  lemma SplitWordFirst(w: string, t: string)
    requires w != [] && NoSpace(w)
    requires t == [] || IsSpace(t[0])
    ensures Split(w + t) == [w] + Split(t)
  {
    var s := w + t;
    assert LeadingSpace(s) == 0 by { assert s[0] == w[0]; }
    assert s[..|w|] == w;
    if t == [] {
      assert s == w;
      WordAll(w);
    } else {
      assert s[|w|] == t[0];
      WordStops(s, |w|);
    }
    assert s[0..] == s;
    assert s[|w|..] == t;
  }

  /** Leading whitespace does not change the split. */
  lemma SplitSkipsSpace(sp: string, t: string)
    requires AllSpace(sp)
    requires t != [] && !IsSpace(t[0])
    ensures Split(sp + t) == Split(t)
  {
    var s := sp + t;
    assert s[..|sp|] == sp;
    assert s[|sp|] == t[0];
    LeadingSpaceStops(s, |sp|);
    assert LeadingSpace(t) == 0;
    assert s[|sp|..] == t;
    assert t[0..] == t;
  }

  /** Two whitespace-free words joined by a run of whitespace split back
      into exactly those two words. */
  lemma SplitTwoWords(b: string, sep: string, p: string)
    requires b != [] && NoSpace(b)
    requires sep != [] && AllSpace(sep)
    requires p != [] && NoSpace(p)
    ensures Split(b + sep + p) == [b, p]
  {
    assert b + sep + p == b + (sep + p);
    SplitWordFirst(b, sep + p);
    SplitSkipsSpace(sep, p);
    assert p + [] == p;
    SplitWordFirst(p, []);
    assert Split([]) == [];
  }

  lemma WordStops(s: string, k: nat)
    requires k < |s| && NoSpace(s[..k]) && IsSpace(s[k])
    ensures WordLength(s) == k
  {
    assert forall i :: 0 <= i < k ==> !IsSpace(s[i]) by {
      forall i | 0 <= i < k ensures !IsSpace(s[i]) { assert s[..k][i] == s[i]; }
    }
    var j := WordLength(s);
    assert forall i :: 0 <= i < j ==> !IsSpace(s[i]) by {
      forall i | 0 <= i < j ensures !IsSpace(s[i]) { assert s[..j][i] == s[i]; }
    }
  }

  lemma WordAll(s: string)
    requires NoSpace(s)
    ensures WordLength(s) == |s|
  {
  }

  /** `str.endswith(suffix)`. */
  predicate EndsWith(s: string, suffix: string) {
    |suffix| <= |s| && s[|s| - |suffix|..] == suffix
  }

  /** `"0" * n`. */
  function Zeros(n: nat): (z: string)
    ensures |z| == n && forall i :: 0 <= i < n ==> z[i] == '0'
  {
    if n == 0 then [] else Zeros(n - 1) + ['0']
  }

  predicate IsSign(c: char) {
    c == '+' || c == '-'
  }

  /** `str.zfill(width)`: left-pad with '0' to `width`, keeping a leading
      sign in front of the padding; a string already `width` long or longer
      is returned unchanged. */
  function ZFill(s: string, width: nat): (r: string)
    ensures |r| == if |s| >= width then |s| else width
    ensures |s| >= width ==> r == s
    ensures |s| < width && (s == [] || !IsSign(s[0])) ==> r == Zeros(width - |s|) + s
    ensures |s| < width && s != [] && IsSign(s[0]) ==> r == [s[0]] + Zeros(width - |s|) + s[1..]
  {
    if |s| >= width then s
    else if s != [] && IsSign(s[0]) then [s[0]] + Zeros(width - |s|) + s[1..]
    else Zeros(width - |s|) + s
  }

  /** `os.path.join(a, b)` on POSIX: an absolute `b` replaces `a`; otherwise a
      '/' is put between them unless `a` is empty or already ends in one. */
  function PathJoin(a: string, b: string): (r: string)
  {
    if b != [] && b[0] == '/' then b
    else if a == [] || a[|a| - 1] == '/' then a + b
    else a + "/" + b
  }

  /** A relative file name joined under a directory without a trailing '/'
      is that directory, a '/', and the name. */
  lemma PathJoinRelative(a: string, b: string)
    requires a != [] && a[|a| - 1] != '/'
    requires b == [] || b[0] != '/'
    ensures PathJoin(a, b) == a + "/" + b
    ensures EndsWith(PathJoin(a, b), b)
  {
    var r := PathJoin(a, b);
    assert r[|r| - |b|..] == b;
  }
}
