/**
  Turning a deed token into the book and page typed into a registry search,
  and the label the captured deed image is saved under.
 */
module DeedRef {
  import opened Results
  import opened PyStr
  import opened PyInt

  /** Width `zfill` pads a page number to. */
  const PAGE_WIDTH := 3

  datatype BookPage = BookPage(book: string, page: string)

  /** Charleston: `bp[:bp.index(" ")], bp[bp.index(" ")+1:]`; `index`
      raises when the token has no space. */
  function SplitAtFirstSpace(t: string): (r: Result<BookPage>)
    ensures r.Ok? <==> ' ' in t
    ensures r.Ok? ==> r.value.book + " " + r.value.page == t && ' ' !in r.value.book
    ensures r.Err? ==> r.error == NoSpaceInToken(t)
  {
    match Index(t, ' ')
    case None => Err(NoSpaceInToken(t))
    case Some(k) =>
      assert t == t[..k] + " " + t[k + 1..];
      Ok(BookPage(t[..k], t[k + 1..]))
  }

  /** Berkeley: `book, page = bp.split()`; the unpacking raises unless the
      token has exactly two whitespace-separated words. */
  function SplitInTwo(t: string): (r: Result<BookPage>)
    ensures r.Ok? <==> |Split(t)| == 2
    ensures r.Ok? ==> Split(t) == [r.value.book, r.value.page]
    ensures r.Ok? ==> && r.value.book != [] && NoSpace(r.value.book)
                      && r.value.page != [] && NoSpace(r.value.page)
                      && r.value.book + r.value.page == NonSpace(t)
    ensures r.Err? ==> r.error == NotTwoParts(t, |Split(t)|)
  {
    var words := Split(t);
    if |words| == 2 then
      SplitLosesOnlySpace(t);
      ConcatOfTwo(words);
      Ok(BookPage(words[0], words[1]))
    else
      Err(NotTwoParts(t, |words|))
  }

  lemma ConcatOfTwo(words: seq<string>)
    requires |words| == 2
    ensures Concat(words) == words[0] + words[1]
  {
    ConcatCons(words[0], words[1..]);
    ConcatCons(words[1], []);
    assert words[1..] == [words[1]] + [];
  }

  /** A book and a page joined by whitespace split back into themselves. */
  lemma SplitInTwoRoundTrip(book: string, sep: string, page: string)
    requires book != [] && NoSpace(book) && page != [] && NoSpace(page)
    requires sep != [] && AllSpace(sep)
    ensures SplitInTwo(book + sep + page) == Ok(BookPage(book, page))
  {
    SplitTwoWords(book, sep, page);
  }

  /** A token with no space, or with three or more words, is not a book and
      page for Berkeley. */
  lemma SplitInTwoRejects(t: string)
    requires NoSpace(t) || |Split(t)| > 2
    ensures SplitInTwo(t).Err?
  {
    if NoSpace(t) && t != [] {
      SplitWordFirst(t, []);
      assert t + [] == t;
      assert Split(t) == [t] + Split([]);
    }
  }

  /** `page.zfill(3)`. */
  function PadPage(page: string): string
  {
    ZFill(page, PAGE_WIDTH)
  }

  lemma {:induction false} ZerosValue(n: nat)
    ensures AllDigits(Zeros(n)) && DecimalValue(Zeros(n)) == 0
  {
    if n > 0 {
      ZerosValue(n - 1);
      assert Zeros(n)[..n - 1] == Zeros(n - 1);
    }
  }

  /** Leading zeros do not change a decimal value. */
  lemma {:induction false} LeadingZerosValue(n: nat, d: string)
    requires AllDigits(d)
    ensures AllDigits(Zeros(n) + d) && DecimalValue(Zeros(n) + d) == DecimalValue(d)
    decreases |d|
  {
    ZerosValue(n);
    var s := Zeros(n) + d;
    assert forall i :: 0 <= i < |s| ==> IsDigit(s[i]) by {
      forall i | 0 <= i < |s| ensures IsDigit(s[i]) {
        if i >= n { assert s[i] == d[i - n]; }
      }
    }
    if d == [] {
      assert s == Zeros(n);
    } else {
      var d' := d[..|d| - 1];
      LeadingZerosValue(n, d');
      assert s[..|s| - 1] == Zeros(n) + d';
      assert s[|s| - 1] == d[|d| - 1];
    }
  }

  /** A digit-only page padded with `zfill(3)`: at least three characters,
      the original page at the end, only '0' before it, the same number, and
      unchanged when it already has three or more digits. */
  lemma PadPageDigits(page: string)
    requires AllDigits(page)
    ensures |PadPage(page)| == if |page| >= PAGE_WIDTH then |page| else PAGE_WIDTH
    ensures EndsWith(PadPage(page), page)
    ensures forall i :: 0 <= i < |PadPage(page)| - |page| ==> PadPage(page)[i] == '0'
    ensures |page| >= PAGE_WIDTH ==> PadPage(page) == page
    ensures AllDigits(PadPage(page)) && DecimalValue(PadPage(page)) == DecimalValue(page)
  {
    var r := PadPage(page);
    if |page| < PAGE_WIDTH {
      assert page == [] || !IsSign(page[0]);
      var n := PAGE_WIDTH - |page|;
      assert r == Zeros(n) + page;
      assert r[|r| - |page|..] == page;
      LeadingZerosValue(n, page);
    } else {
      assert r[|r| - |page|..] == page;
    }
  }

  /** The label a deed image is saved under: `f"DB {book} {page}"`, with the
      padded page. */
  function DeedLabel(bp: BookPage): string
  {
    "DB " + bp.book + " " + bp.page
  }

  /** Reads a deed label back into its book and page. */
  function ParseDeedLabel(name: string): Option<BookPage>
  {
    if |name| >= 3 && name[..3] == "DB " then
      match SplitAtFirstSpace(name[3..])
      case Ok(bp) => Some(bp)
      case Err(_) => None
    else None
  }

  /** A label whose book has no space gives back its book and page. */
  lemma DeedLabelRoundTrip(bp: BookPage)
    requires ' ' !in bp.book
    ensures ParseDeedLabel(DeedLabel(bp)) == Some(bp)
  {
    var name := DeedLabel(bp);
    assert name[..3] == "DB ";
    assert name[3..] == bp.book + " " + bp.page;
    var r := SplitAtFirstSpace(name[3..]);
    assert r.Ok?;
    var b := r.value;
    assert b.book + " " + b.page == bp.book + " " + bp.page;
    SpaceSplitUnique(b.book, b.page, bp.book, bp.page);
  }

  lemma SpaceSplitUnique(b1: string, p1: string, b2: string, p2: string)
    requires b1 + " " + p1 == b2 + " " + p2
    requires ' ' !in b1 && ' ' !in b2
    ensures b1 == b2 && p1 == p2
  {
    var s := b1 + " " + p1;
    assert forall i :: 0 <= i < |b1| ==> s[i] == b1[i] && s[i] != ' ';
    assert forall i :: 0 <= i < |b2| ==> s[i] == b2[i] && s[i] != ' ';
    assert s[|b1|] == ' ' && s[|b2|] == ' ';
    assert |b1| == |b2|;
    assert b1 == s[..|b1|] && b2 == s[..|b2|];
    assert p1 == s[|b1| + 1..] && p2 == s[|b2| + 1..];
  }

  /** Two deeds with space-free books get the same label only if they are the
      same deed, so one parcel's deed files do not overwrite each other. */
  lemma DeedLabelInjective(x: BookPage, y: BookPage)
    requires ' ' !in x.book && ' ' !in y.book
    requires DeedLabel(x) == DeedLabel(y)
    ensures x == y
  {
    DeedLabelRoundTrip(x);
    DeedLabelRoundTrip(y);
  }
}
