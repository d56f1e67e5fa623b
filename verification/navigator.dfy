/**
  What one parcel's scrape does with the modelled decisions: the identifier
  typed into each search form, the captures made, the registry lookups made
  for the deed references, and the exception (if any) that the per-parcel
  catch-all ends it with. Browser steps are assumed to succeed; the faults
  left are the three ValueErrors of the deed handling.
 */
module Navigator {
  import opened Results
  import opened PyStr
  import opened PyInt
  import opened DeedTable
  import opened DeedRef

  datatype County = Charleston | Berkeley

  /** The identifier typed into a search form: `tms.replace('-', '')`. */
  function SearchId(tms: string): (r: string)
    ensures '-' !in r && |r| <= |tms|
  {
    RemoveAll(tms, '-')
  }

  /** The typed identifier is the TMS with every dash taken out and every
      other character kept, in order; it has no dash left to remove. */
  lemma SearchIdIsTmsWithoutDashes(tms: string, a: string, b: string)
    ensures '-' !in SearchId(tms)
    ensures forall c :: c != '-' ==> multiset(SearchId(tms))[c] == multiset(tms)[c]
    ensures SearchId(a + b) == SearchId(a) + SearchId(b)
    ensures SearchId(SearchId(tms)) == SearchId(tms)
    ensures '-' !in tms ==> SearchId(tms) == tms
  {
    RemoveAllKeepsOthers(tms, '-');
    RemoveAllAppend(a, b, '-');
    RemoveAllAbsent(SearchId(tms), '-');
    if '-' !in tms { RemoveAllAbsent(tms, '-'); }
  }

  /** A step of a parcel scrape that the model observes. */
  datatype Step =
    | TypeIdentifier(field: string, value: string)  // input_tms(...) into the named field
    | Save(title: string)                           // save_current_page(title, folder)
    | LookUp(book: string, page: string)            // book and page typed into the registry search

  /** The steps taken and the exception, if any, that ended them. */
  datatype Run = Run(steps: seq<Step>, fault: Option<Fault>)

  /** How a deed token is cut into book and page in each county. */
  function SplitToken(county: County, t: string): Result<BookPage>
  {
    match county
    case Charleston => SplitAtFirstSpace(t)
    case Berkeley => SplitInTwo(t)
  }

  /** One deed-loop iteration that split its token: the lookup with the
      padded page, then the capture labelled with it. */
  function DeedSteps(bp: BookPage): seq<Step>
  {
    var padded := BookPage(bp.book, PadPage(bp.page));
    [LookUp(padded.book, padded.page), Save(DeedLabel(padded))]
  }

  /** How each token of a deed list splits, in order. */
  function Splits(county: County, deeds: seq<string>): (r: seq<Result<BookPage>>)
    ensures |r| == |deeds|
    ensures forall i :: 0 <= i < |deeds| ==> r[i] == SplitToken(county, deeds[i])
  {
    if deeds == [] then [] else Splits(county, deeds[..|deeds| - 1]) + [SplitToken(county, deeds[|deeds| - 1])]
  }

  /** The deed loop over the split tokens: a token that did not split
      raised, and the exception ends the loop. */
  function LoopOver(splits: seq<Result<BookPage>>): Run
  {
    if splits == [] then Run([], None)
    else
      var before := LoopOver(splits[..|splits| - 1]);
      if before.fault.Some? then before
      else match splits[|splits| - 1]
        case Err(e) => Run(before.steps, Some(e))
        case Ok(bp) => Run(before.steps + DeedSteps(bp), None)
  }

  /** The deed loop (`for bp in deed_links` / `for bp in deed_list`). */
  function DeedLoop(county: County, deeds: seq<string>): (r: Run)
    ensures |r.steps| <= 2 * |deeds|
    ensures r.fault.Some? ==> exists i :: 0 <= i < |deeds| && SplitToken(county, deeds[i]) == Err(r.fault.value)
  {
    var splits := Splits(county, deeds);
    var r := LoopOver(splits);
    LoopOverBounds(splits);
    assert r.fault.Some? ==> exists i :: 0 <= i < |deeds| && SplitToken(county, deeds[i]) == Err(r.fault.value) by {
      if r.fault.Some? {
        var i :| 0 <= i < |splits| && splits[i] == Err(r.fault.value);
        assert SplitToken(county, deeds[i]) == Err(r.fault.value);
      }
    }
    r
  }

  /** At most two steps per token, and a fault is always that of some
      token that did not split. */
  lemma {:induction false} LoopOverBounds(splits: seq<Result<BookPage>>)
    ensures |LoopOver(splits).steps| <= 2 * |splits|
    ensures LoopOver(splits).fault.Some? ==> Err(LoopOver(splits).fault.value) in splits
  {
    if splits != [] {
      var init := splits[..|splits| - 1];
      LoopOverBounds(init);
      assert splits == init + [splits[|splits| - 1]];
    }
  }

  /** Running the loop over two blocks is running it over the first and, if
      that raised nothing, over the second. */
  lemma {:induction false} LoopOverAppend(a: seq<Result<BookPage>>, b: seq<Result<BookPage>>)
    ensures LoopOver(a + b) ==
      var ra := LoopOver(a);
      if ra.fault.Some? then ra
      else Run(ra.steps + LoopOver(b).steps, LoopOver(b).fault)
    decreases |b|
  {
    if b == [] {
      assert a + b == a;
      assert LoopOver(a).steps + [] == LoopOver(a).steps;
    } else {
      var b' := b[..|b| - 1];
      assert (a + b)[..|a + b| - 1] == a + b';
      assert (a + b)[|a + b| - 1] == b[|b| - 1];
      LoopOverAppend(a, b');
      var ra, rb := LoopOver(a), LoopOver(b');
      if ra.fault.None? && rb.fault.None? {
        match b[|b| - 1]
        case Err(_) =>
        case Ok(bp) => assert ra.steps + rb.steps + DeedSteps(bp) == ra.steps + (rb.steps + DeedSteps(bp));
      }
    }
  }

  lemma SliceOfPrefix(a: seq<Step>, b: seq<Step>, lo: nat, hi: nat)
    requires lo <= hi <= |a|
    ensures (a + b)[lo..hi] == a[lo..hi]
  {
  }

  /** When every token split, the loop completes with, for each token in
      order, exactly its lookup and its capture. */
  lemma {:induction false} LoopOverAllOk(splits: seq<Result<BookPage>>)
    requires forall i :: 0 <= i < |splits| ==> splits[i].Ok?
    ensures LoopOver(splits).fault.None?
    ensures |LoopOver(splits).steps| == 2 * |splits|
    ensures forall i :: 0 <= i < |splits| ==> LoopOver(splits).steps[2 * i..2 * i + 2] == DeedSteps(splits[i].value)
  {
    if splits != [] {
      var n := |splits| - 1;
      var init := splits[..n];
      assert forall i :: 0 <= i < n ==> init[i] == splits[i];
      LoopOverAllOk(init);
      var before := LoopOver(init).steps;
      var last := DeedSteps(splits[n].value);
      assert LoopOver(splits) == Run(before + last, None);
      var steps := before + last;
      forall i | 0 <= i < |splits|
        ensures steps[2 * i..2 * i + 2] == DeedSteps(splits[i].value)
      {
        if i < n {
          SliceOfPrefix(before, last, 2 * i, 2 * i + 2);
        } else {
          assert steps[2 * i..2 * i + 2] == last;
        }
      }
    }
  }

  /** The first token that did not split ends the loop with its fault,
      after the lookups and captures of the tokens before it. */
  lemma {:induction false} LoopOverFirstErr(splits: seq<Result<BookPage>>, k: nat)
    requires k < |splits| && splits[k].Err?
    requires forall i :: 0 <= i < k ==> splits[i].Ok?
    ensures LoopOver(splits) == Run(LoopOver(splits[..k]).steps, Some(splits[k].error))
  {
    var before := splits[..k];
    assert forall i :: 0 <= i < |before| ==> before[i] == splits[i];
    LoopOverAllOk(before);
    var upto := splits[..k + 1];
    assert upto[..|upto| - 1] == before;
    assert upto[|upto| - 1] == splits[k];
    assert splits == upto + splits[k + 1..];
    LoopOverAppend(upto, splits[k + 1..]);
  }

  lemma SplitsPrefix(county: County, deeds: seq<string>, k: nat)
    requires k <= |deeds|
    ensures Splits(county, deeds[..k]) == Splits(county, deeds)[..k]
  {
  }

  /** When every token splits, the deed loop completes and makes, for each
      token in order, exactly its lookup and its capture. */
  lemma DeedLoopAllSplit(county: County, deeds: seq<string>)
    requires forall i :: 0 <= i < |deeds| ==> SplitToken(county, deeds[i]).Ok?
    ensures DeedLoop(county, deeds).fault.None?
    ensures |DeedLoop(county, deeds).steps| == 2 * |deeds|
    ensures forall i :: 0 <= i < |deeds| ==>
      DeedLoop(county, deeds).steps[2 * i..2 * i + 2] == DeedSteps(SplitToken(county, deeds[i]).value)
  {
    LoopOverAllOk(Splits(county, deeds));
  }

  /** The first token that does not split ends the deed loop with its
      fault, after the lookups and captures of the tokens before it. */
  lemma DeedLoopFirstBad(county: County, deeds: seq<string>, k: nat)
    requires k < |deeds| && SplitToken(county, deeds[k]).Err?
    requires forall i :: 0 <= i < k ==> SplitToken(county, deeds[i]).Ok?
    ensures DeedLoop(county, deeds) == Run(DeedLoop(county, deeds[..k]).steps, Some(SplitToken(county, deeds[k]).error))
  {
    LoopOverFirstErr(Splits(county, deeds), k);
    SplitsPrefix(county, deeds, k);
  }

  /** For each token in order, its lookup and capture; a token that does
      not split contributes nothing. */
  function Lookups(county: County, deeds: seq<string>): seq<Step>
  {
    if deeds == [] then []
    else
      var more := match SplitToken(county, deeds[|deeds| - 1])
        case Ok(bp) => DeedSteps(bp)
        case Err(_) => [];
      Lookups(county, deeds[..|deeds| - 1]) + more
  }

  /** When every token splits, the deed loop raises nothing and makes
      exactly the lookups and captures of its tokens. */
  lemma {:induction false} DeedLoopOfSplitting(county: County, deeds: seq<string>)
    requires forall i :: 0 <= i < |deeds| ==> SplitToken(county, deeds[i]).Ok?
    ensures DeedLoop(county, deeds) == Run(Lookups(county, deeds), None)
  {
    if deeds != [] {
      var init := deeds[..|deeds| - 1];
      assert forall i :: 0 <= i < |init| ==> init[i] == deeds[i];
      DeedLoopOfSplitting(county, init);
      var splits := Splits(county, deeds);
      assert splits[..|splits| - 1] == Splits(county, init);
    }
  }

  /** The deed loop as written, one token at a time. */
  method RunDeedLoop(county: County, deeds: seq<string>) returns (steps: seq<Step>, fault: Option<Fault>)
    ensures Run(steps, fault) == DeedLoop(county, deeds)
  {
    steps, fault := [], None;
    ghost var splits := Splits(county, deeds);
    for i := 0 to |deeds|
      invariant Run(steps, None) == LoopOver(splits[..i])
    {
      assert splits[..i + 1][..i] == splits[..i];
      var split := SplitToken(county, deeds[i]);
      assert split == splits[i];
      if split.Err? {
        fault := Some(split.error);
        assert Run(steps, fault) == LoopOver(splits[..i + 1]);
        assert splits == splits[..i + 1] + splits[i + 1..];
        LoopOverAppend(splits[..i + 1], splits[i + 1..]);
        return;
      }
      var book, page := split.value.book, PadPage(split.value.page);
      steps := steps + [LookUp(book, page), Save(DeedLabel(BookPage(book, page)))];
    }
    assert splits[..|deeds|] == splits;
  }

  const PROPERTY_CARD := "Property Card"
  const TAX_INFO := "Tax Info"
  const TAX_BILL := "Tax Bill"
  const TAX_RECEIPT := "Tax Receipt"

  /** `scrape_charleston`: type the PIN, save the property card, read the
      transactions table, save the tax info, then run the deed loop. An
      `int()` error in the table loop ends the parcel before the tax info. */
  function CharlestonParcel(tms: string, table: Option<seq<Row>>): (r: Run)
    ensures |r.steps| >= 2 && r.steps[0] == TypeIdentifier("txtPIN", SearchId(tms)) && r.steps[1] == Save(PROPERTY_CARD)
    ensures CharlestonDeeds(table).Ok? <==> |r.steps| >= 3 && r.steps[2] == Save(TAX_INFO)
    ensures (r.fault.Some? && r.fault.value.BadBookNumber?) <==> CharlestonDeeds(table).Err?
    ensures r.fault.Some? && CharlestonDeeds(table).Ok? ==> r.fault.value.NoSpaceInToken?
  {
    var start := [TypeIdentifier("txtPIN", SearchId(tms)), Save(PROPERTY_CARD)];
    match CharlestonDeeds(table)
    case Err(e) => Run(start, Some(e))
    case Ok(deeds) =>
      var loop := DeedLoop(Charleston, deeds);
      Run(start + [Save(TAX_INFO)] + loop.steps, loop.fault)
  }

  /** What a Berkeley parcel does before its deed loop. */
  function BerkeleyStart(tms: string, receiptShown: bool): (r: seq<Step>)
    ensures |r| >= 4
    ensures r[0] == TypeIdentifier("tms", SearchId(tms)) && r[1] == Save(PROPERTY_CARD)
    ensures r[2] == TypeIdentifier("parcelid", SearchId(tms)) && r[3] == Save(TAX_BILL)
    ensures r[4..] == if receiptShown then [Save(TAX_RECEIPT)] else []
    ensures Save(PROPERTY_CARD) in r && Save(TAX_BILL) in r
    ensures Save(TAX_RECEIPT) in r <==> receiptShown
  {
    [TypeIdentifier("tms", SearchId(tms)), Save(PROPERTY_CARD),
     TypeIdentifier("parcelid", SearchId(tms)), Save(TAX_BILL)]
    + (if receiptShown then [Save(TAX_RECEIPT)] else [])
  }

  /** `scrape_berkeley`: type the TMS, save the property card, read the
      conveyance rows, search the tax site, save the bill and, when the
      receipt tab is there, the receipt, then run the deed loop. */
  function BerkeleyParcel(tms: string, rows: seq<Row>, receiptShown: bool): (r: Run)
    ensures |BerkeleyStart(tms, receiptShown)| <= |r.steps|
    ensures r.steps[..|BerkeleyStart(tms, receiptShown)|] == BerkeleyStart(tms, receiptShown)
    ensures r.fault.Some? ==> r.fault.value.NotTwoParts?
  {
    var start := BerkeleyStart(tms, receiptShown);
    var loop := DeedLoop(Berkeley, BerkeleyDeeds(rows));
    Run(start + loop.steps, loop.fault)
  }

  /** A parcel with no deed references completes normally, with its primary
      and tax documents captured; a missing receipt is not a failure. */
  lemma NoDeedsCompletes(tms: string, table: Option<seq<Row>>, rows: seq<Row>, receiptShown: bool)
    ensures CharlestonDeeds(table) == Ok([]) ==>
      CharlestonParcel(tms, table) == Run([TypeIdentifier("txtPIN", SearchId(tms)), Save(PROPERTY_CARD), Save(TAX_INFO)], None)
    ensures BerkeleyDeeds(rows) == [] ==>
      && BerkeleyParcel(tms, rows, receiptShown).fault.None?
      && Save(PROPERTY_CARD) in BerkeleyParcel(tms, rows, receiptShown).steps
      && Save(TAX_BILL) in BerkeleyParcel(tms, rows, receiptShown).steps
      && (Save(TAX_RECEIPT) in BerkeleyParcel(tms, rows, receiptShown).steps <==> receiptShown)
  {
    var start := [TypeIdentifier("txtPIN", SearchId(tms)), Save(PROPERTY_CARD)];
    assert start + [Save(TAX_INFO)] + [] == start + [Save(TAX_INFO)];
    var bstart := [TypeIdentifier("tms", SearchId(tms)), Save(PROPERTY_CARD),
                   TypeIdentifier("parcelid", SearchId(tms)), Save(TAX_BILL)]
                  + (if receiptShown then [Save(TAX_RECEIPT)] else []);
    assert bstart + [] == bstart;
  }

  /** A Charleston table that raised nothing: the PIN, the property card and
      the tax info, then the deed loop. */
  lemma CharlestonParcelOfDeeds(tms: string, table: Option<seq<Row>>, deeds: seq<string>)
    requires CharlestonDeeds(table) == Ok(deeds)
    ensures CharlestonParcel(tms, table) ==
      Run([TypeIdentifier("txtPIN", SearchId(tms)), Save(PROPERTY_CARD), Save(TAX_INFO)] + DeedLoop(Charleston, deeds).steps,
          DeedLoop(Charleston, deeds).fault)
  {
    var start := [TypeIdentifier("txtPIN", SearchId(tms)), Save(PROPERTY_CARD)];
    assert start + [Save(TAX_INFO)] == [TypeIdentifier("txtPIN", SearchId(tms)), Save(PROPERTY_CARD), Save(TAX_INFO)];
  }

  /** A fault in the deed loop does not undo earlier captures: the
      Charleston run still begins with the property card and the tax info,
      and every lookup made before the fault is kept. */
  lemma CharlestonFaultKeepsCaptures(tms: string, table: Option<seq<Row>>, deeds: seq<string>, k: nat)
    requires CharlestonDeeds(table) == Ok(deeds)
    requires k < |deeds| && SplitToken(Charleston, deeds[k]).Err?
    requires forall i :: 0 <= i < k ==> SplitToken(Charleston, deeds[i]).Ok?
    ensures CharlestonParcel(tms, table).fault == Some(NoSpaceInToken(deeds[k]))
    ensures CharlestonParcel(tms, table).steps ==
      [TypeIdentifier("txtPIN", SearchId(tms)), Save(PROPERTY_CARD), Save(TAX_INFO)] + DeedLoop(Charleston, deeds[..k]).steps
  {
    assert SplitToken(Charleston, deeds[k]).error == NoSpaceInToken(deeds[k]);
    DeedLoopFirstBad(Charleston, deeds, k);
    CharlestonParcelOfDeeds(tms, table, deeds);
  }

  /** A Berkeley parcel whose every deed token splits in two completes:
      after the property card and the tax documents come, token by token,
      its lookup with the padded page and its labelled capture. */
  lemma BerkeleyAllSplitCompletes(tms: string, rows: seq<Row>, receiptShown: bool)
    requires forall i :: 0 <= i < |BerkeleyDeeds(rows)| ==> SplitInTwo(BerkeleyDeeds(rows)[i]).Ok?
    ensures BerkeleyParcel(tms, rows, receiptShown)
            == Run(BerkeleyStart(tms, receiptShown) + Lookups(Berkeley, BerkeleyDeeds(rows)), None)
  {
    var deeds := BerkeleyDeeds(rows);
    forall i | 0 <= i < |deeds| ensures SplitToken(Berkeley, deeds[i]).Ok? {}
    DeedLoopOfSplitting(Berkeley, deeds);
  }

  /** A Charleston parcel whose table raised nothing and whose every deed
      token has a space completes: after the property card and the tax info
      come, token by token, its lookup with the padded page and its
      labelled capture. */
  lemma CharlestonAllSplitCompletes(tms: string, table: Option<seq<Row>>, deeds: seq<string>)
    requires CharlestonDeeds(table) == Ok(deeds)
    requires forall i :: 0 <= i < |deeds| ==> SplitAtFirstSpace(deeds[i]).Ok?
    ensures CharlestonParcel(tms, table)
            == Run([TypeIdentifier("txtPIN", SearchId(tms)), Save(PROPERTY_CARD), Save(TAX_INFO)] + Lookups(Charleston, deeds), None)
  {
    forall i | 0 <= i < |deeds| ensures SplitToken(Charleston, deeds[i]).Ok? {}
    DeedLoopOfSplitting(Charleston, deeds);
    CharlestonParcelOfDeeds(tms, table, deeds);
  }

  /** The first Berkeley token that does not split in two ends the parcel
      with its fault; the captures made before it are kept. */
  lemma BerkeleyFaultKeepsCaptures(tms: string, rows: seq<Row>, receiptShown: bool, k: nat)
    requires k < |BerkeleyDeeds(rows)| && SplitToken(Berkeley, BerkeleyDeeds(rows)[k]).Err?
    requires forall i :: 0 <= i < k ==> SplitToken(Berkeley, BerkeleyDeeds(rows)[i]).Ok?
    ensures BerkeleyParcel(tms, rows, receiptShown).fault
            == Some(NotTwoParts(BerkeleyDeeds(rows)[k], |Split(BerkeleyDeeds(rows)[k])|))
    ensures BerkeleyParcel(tms, rows, receiptShown).steps ==
      BerkeleyStart(tms, receiptShown) + DeedLoop(Berkeley, BerkeleyDeeds(rows)[..k]).steps
  {
    DeedLoopFirstBad(Berkeley, BerkeleyDeeds(rows), k);
  }

  /** Text that `int()` accepts and that ends in a non-space is whitespace
      followed by a run without any whitespace. */
  lemma ParsedTextShape(s: string) returns (lead: string, m: string)
    requires Strip(s) != [] && NoSpace(Strip(s)) && s != [] && !IsSpace(s[|s| - 1])
    ensures s == lead + m && AllSpace(lead) && NoSpace(m) && m != []
  {
    var a, b := StripSplits(s);
    lead, m := a, Strip(s);
    assert b == [];
    assert s == lead + m;
  }

  /** In a word, then whitespace, then a whitespace-free run, the first
      space can only be in the whitespace. */
  lemma FirstSpaceInLead(x: char, lead: string, m: string)
    requires !IsSpace(x) && AllSpace(lead) && NoSpace(m)
    ensures var t := [x] + lead + m;
      Index(t, ' ').Some? ==> 1 <= Index(t, ' ').value <= |lead| && t[..Index(t, ' ').value] == [x] + lead[..Index(t, ' ').value - 1]
  {
    var t := [x] + lead + m;
    assert t[0] == x;
    assert forall j :: 1 + |lead| <= j < |t| ==> t[j] == m[j - 1 - |lead|];
    assert forall j :: 1 <= j <= |lead| ==> t[j] == lead[j - 1];
    if Index(t, ' ').Some? {
      var k := Index(t, ' ').value;
      assert t[k] == ' ';
      assert 1 <= k <= |lead|;
      assert t[..k] == [x] + lead[..k - 1];
    }
  }

  lemma LetterVerdictParses(t: string)
    requires t != [] && IsAlpha(t[0]) && CharlestonVerdict(t) != Raise
    ensures ParseInt(t[1..]).Some?
  {
  }

  /** A letter-prefixed Charleston token that the filter keeps never reaches
      the registry with its book number: either it has no space and the split
      raises, or the book cut off at the first space is the letter followed
      only by whitespace. */
  lemma KeptLetterTokenLosesBookNumber(t: string)
    requires t != [] && IsAlpha(t[0]) && !IsSpace(t[|t| - 1])
    requires CharlestonVerdict(t) == Keep
    ensures SplitAtFirstSpace(t).Err? ||
      (var book := SplitAtFirstSpace(t).value.book; book != [] && book[0] == t[0] && AllSpace(book[1..]))
  {
    LetterVerdictParses(t);
    LetterThenWord(t);
  }

  lemma LetterThenWord(t: string)
    requires t != [] && IsAlpha(t[0]) && !IsSpace(t[|t| - 1])
    requires Strip(t[1..]) != [] && NoSpace(Strip(t[1..]))
    ensures SplitAtFirstSpace(t).Err? ||
      (var book := SplitAtFirstSpace(t).value.book; book != [] && book[0] == t[0] && AllSpace(book[1..]))
  {
    var rest := t[1..];
    assert rest != [];
    assert rest[|rest| - 1] == t[|t| - 1];
    var lead, m := ParsedTextShape(rest);
    assert t == [t[0]] + rest;
    assert t == [t[0]] + lead + m;
    SplitAfterLetter(t[0], lead, m);
  }

  lemma SplitAfterLetter(x: char, lead: string, m: string)
    requires !IsSpace(x) && AllSpace(lead) && NoSpace(m)
    ensures var t := [x] + lead + m;
      SplitAtFirstSpace(t).Err? ||
      (var book := SplitAtFirstSpace(t).value.book; book != [] && book[0] == x && AllSpace(book[1..]))
  {
    FirstSpaceInLead(x, lead, m);
  }

  /** `int("285 112")` raises: the letter book "A285 112" is a Raise. */
  lemma LetterBookTokenRaises()
    ensures CharlestonVerdict("A285 112") == Raise
  {
    assert "A285 112" == ['A'] + "285" + " " + "112";
    LetterBookWithPageRaises('A', "285", " ", "112");
  }

  /** The transactions table of the scenario below ends the Charleston scan
      on its first data row. */
  lemma CharlestonScenarioTable()
    ensures CharlestonDeeds(Some([["Date", "Book Page"], ["01/02/2003", "A285 112"], ["04/05/1996", "A100 004"]]))
            == Err(BadBookNumber("A285 112"))
  {
    var data: seq<Row> := [["01/02/2003", "A285 112"], ["04/05/1996", "A100 004"]];
    CharlestonSkipsHeader(["Date", "Book Page"], data);
    ScenarioRowRaises(data[0]);
    CharlestonFirstRaise(data, 0);
  }

  lemma ScenarioRowRaises(row: Row)
    requires row == ["01/02/2003", "A285 112"]
    ensures Raises(row) && Strip(row[1]) == "A285 112"
  {
    assert "A285 112"[0] == 'A' && "A285 112"[7] == '2';
    StripOfTrimmed("A285 112");
    LetterBookTokenRaises();
  }

  /** The scenario of a Charleston parcel whose transactions table lists
      "A285 112" and then "A100 004": `int("285 112")` raises on the first
      row, so the parcel ends right after its property card, with no tax
      info and no registry lookup. */
  lemma CharlestonLetterBookScenario(tms: string)
    ensures CharlestonParcel(tms,
              Some([["Date", "Book Page"], ["01/02/2003", "A285 112"], ["04/05/1996", "A100 004"]]))
            == Run([TypeIdentifier("txtPIN", SearchId(tms)), Save(PROPERTY_CARD)], Some(BadBookNumber("A285 112")))
  {
    CharlestonScenarioTable();
  }

  /** The same table in Berkeley: both tokens are kept, stripped, in order. */
  lemma BerkeleyScenarioDeeds()
    ensures BerkeleyDeeds([["Date", "Book Page"], ["01/02/2003", "A285 112"], ["04/05/1996", "A100 004"]])
            == ["A285 112", "A100 004"]
  {
    var r0: Row, r1: Row := ["01/02/2003", "A285 112"], ["04/05/1996", "A100 004"];
    FirstScenarioRow(r0);
    SecondScenarioRow(r1);
    TwoRowDeeds(["Date", "Book Page"], r0, r1, "A285 112", "A100 004");
  }

  lemma TwoRowDeeds(header: Row, r0: Row, r1: Row, t0: string, t1: string)
    requires BerkeleyScan([r0]) == [t0] && BerkeleyScan([r1]) == [t1]
    ensures BerkeleyDeeds([header, r0, r1]) == [t0, t1]
  {
    assert [header, r0, r1] == [header] + [r0, r1];
    BerkeleySkipsHeader(header, [r0, r1]);
    assert [r0, r1] == [r0] + [r1];
    BerkeleyScanAppend([r0], [r1]);
  }

  lemma FirstScenarioRow(row: Row)
    requires row == ["01/02/2003", "A285 112"]
    ensures BerkeleyScan([row]) == ["A285 112"]
  {
    assert "A285 112"[0] == 'A' && "A285 112"[7] == '2';
    StripOfTrimmed("A285 112");
    RowGivesToken(row, "A285 112");
  }

  lemma SecondScenarioRow(row: Row)
    requires row == ["04/05/1996", "A100 004"]
    ensures BerkeleyScan([row]) == ["A100 004"]
  {
    assert "A100 004"[0] == 'A' && "A100 004"[7] == '4';
    StripOfTrimmed("A100 004");
    RowGivesToken(row, "A100 004");
  }

  lemma RowGivesToken(row: Row, t: string)
    requires |row| >= 2 && t != [] && Strip(row[1]) == t
    ensures BerkeleyScan([row]) == [t]
  {
    assert [row][..0] == [];
  }

  /** Berkeley splits "A285 112" on whitespace into book "A285" and page
      "112", which already has three digits. */
  lemma BerkeleyScenarioSplit()
    ensures SplitInTwo("A285 112") == Ok(BookPage("A285", "112"))
  {
    assert "A285 112" == "A285" + " " + "112";
    SplitInTwoRoundTrip("A285", " ", "112");
  }

  /** The lookup and the capture Berkeley then makes for it. */
  lemma BerkeleyScenarioSteps()
    ensures DeedSteps(BookPage("A285", "112")) == [LookUp("A285", "112"), Save("DB A285 112")]
  {
    var bp := BookPage("A285", "112");
    assert PadPage("112") == "112";
    assert BookPage(bp.book, PadPage(bp.page)) == bp;
    assert DeedLabel(bp) == "DB A285 112";
  }
}
