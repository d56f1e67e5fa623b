/**
  The deed-reference extractors of scraper.py. The HTML table is given as its
  rows, each row as the texts of its <td> cells; the first row is the header.
  Charleston (`grdTransactions`) filters letter-prefixed books by number and
  can raise; Berkeley (`#previousOwnerHistory`) keeps every non-empty token.
 */
module DeedTable {
  import opened Results
  import opened PyStr
  import opened PyInt

  /** One <tr>: the text of each of its <td> cells, in order. */
  type Row = seq<string>

  /** The smallest book number a letter-prefixed Charleston book may have. */
  const MIN_LETTER_BOOK := 280

  /** The stripped text of a row's second cell; rows with fewer than two
      cells have none. */
  function BookPageCell(row: Row): Option<string>
  {
    if |row| >= 2 then Some(Strip(row[1])) else None
  }

  /** `rows[1:]`: everything after the header row. */
  function DataRows(rows: seq<Row>): seq<Row>
  {
    if rows == [] then [] else rows[1..]
  }

  // ---------------------------------------------------------------------
  // Charleston

  /** What the Charleston filter does with one stripped token. */
  datatype Verdict = Keep | Drop | Raise

  function CharlestonVerdict(t: string): (v: Verdict)
    ensures v == Keep ==> t != [] && (IsDigit(t[0]) || IsAlpha(t[0]))
    ensures v == Raise <==> t != [] && IsAlpha(t[0]) && ParseInt(t[1..]).None?
  {
    if t != [] && IsAlpha(t[0]) then
      match ParseInt(t[1..])
      case None => Raise
      case Some(n) => if n >= MIN_LETTER_BOOK then Keep else Drop
    else if t != [] && IsDigit(t[0]) then Keep
    else Drop
  }

  /** One iteration of the Charleston row loop. */
  function CharlestonStep(acc: seq<string>, row: Row): Result<seq<string>>
  {
    match BookPageCell(row)
    case None => Ok(acc)
    case Some(t) =>
      match CharlestonVerdict(t)
      case Keep => Ok(acc + [t])
      case Drop => Ok(acc)
      case Raise => Err(BadBookNumber(t))
  }

  /** The Charleston loop over data rows: the kept tokens in table order, or
      the fault of the first row whose book number `int()` rejects (the
      exception leaves the loop). */
  function CharlestonScan(rows: seq<Row>): (r: Result<seq<string>>)
    ensures r.Ok? ==> |r.value| <= |rows|
    ensures r.Err? ==> r.error.BadBookNumber?
  {
    if rows == [] then Ok([])
    else
      match CharlestonScan(rows[..|rows| - 1])
      case Err(e) => Err(e)
      case Ok(acc) => CharlestonStep(acc, rows[|rows| - 1])
  }

  /** The deed tokens of a Charleston property page; a missing table yields
      none. */
  function CharlestonDeeds(table: Option<seq<Row>>): (r: Result<seq<string>>)
    ensures r.Ok? ==> |r.value| <= if table.Some? && table.value != [] then |table.value| - 1 else 0
    ensures r.Err? ==> table.Some? && r.error.BadBookNumber?
  {
    match table
    case None => Ok([])
    case Some(rows) => CharlestonScan(DataRows(rows))
  }

  /** A row on which the Charleston filter raises. */
  predicate Raises(row: Row) {
    BookPageCell(row).Some? && CharlestonVerdict(BookPageCell(row).value) == Raise
  }

  /** The result of scanning one block of rows and then the next. */
  function Chain(first: Result<seq<string>>, second: Result<seq<string>>): Result<seq<string>>
  {
    match first
    case Err(e) => Err(e)
    case Ok(x) =>
      match second
      case Err(e) => Err(e)
      case Ok(y) => Ok(x + y)
  }

  lemma CharlestonStepShift(x: seq<string>, y: seq<string>, row: Row)
    ensures CharlestonStep(x + y, row) == Chain(Ok(x), CharlestonStep(y, row))
  {
    if BookPageCell(row).Some? && CharlestonVerdict(BookPageCell(row).value) == Keep {
      assert x + y + [BookPageCell(row).value] == x + (y + [BookPageCell(row).value]);
    }
  }

  /** Scanning two blocks of rows is scanning each in turn: kept tokens keep
      their table order and duplicates, and the first fault wins. */
  lemma {:induction false} CharlestonScanAppend(a: seq<Row>, b: seq<Row>)
    ensures CharlestonScan(a + b) == Chain(CharlestonScan(a), CharlestonScan(b))
    decreases |b|
  {
    if b == [] {
      assert a + b == a;
      match CharlestonScan(a)
      case Err(_) =>
      case Ok(x) => assert x + [] == x;
    } else {
      var b' := b[..|b| - 1];
      var row := b[|b| - 1];
      assert (a + b)[..|a + b| - 1] == a + b';
      assert (a + b)[|a + b| - 1] == row;
      CharlestonScanAppend(a, b');
      match CharlestonScan(a)
      case Err(_) =>
      case Ok(x) =>
        match CharlestonScan(b')
        case Err(_) =>
        case Ok(y) => CharlestonStepShift(x, y, row);
    }
  }

  /** One row more: the scan of the longer prefix is the step on the scan
      of the shorter one. */
  lemma CharlestonScanExtend(rows: seq<Row>, i: nat)
    requires i < |rows|
    ensures CharlestonScan(rows[..i + 1]) ==
      match CharlestonScan(rows[..i])
      case Err(e) => Err(e)
      case Ok(acc) => CharlestonStep(acc, rows[i])
  {
    assert rows[..i + 1][..i] == rows[..i];
    assert rows[..i + 1][i] == rows[i];
  }

  /** A fault in a prefix is the fault of the whole scan. */
  lemma CharlestonFaultStays(rows: seq<Row>, i: nat)
    requires i <= |rows| && CharlestonScan(rows[..i]).Err?
    ensures CharlestonScan(rows) == CharlestonScan(rows[..i])
  {
    var a, b := rows[..i], rows[i..];
    FaultPersists(a, b);
    assert a + b == rows;
  }

  lemma FaultPersists(a: seq<Row>, b: seq<Row>)
    requires CharlestonScan(a).Err?
    ensures CharlestonScan(a + b) == CharlestonScan(a)
  {
    CharlestonScanAppend(a, b);
  }

  lemma CharlestonStepOk(acc: seq<string>, row: Row)
    ensures CharlestonStep(acc, row).Ok? <==> !Raises(row)
  {
  }

  lemma NoneRaiseSplit(rows: seq<Row>, init: seq<Row>)
    requires rows != [] && init == rows[..|rows| - 1]
    ensures (forall i :: 0 <= i < |rows| ==> !Raises(rows[i])) <==>
            (forall i :: 0 <= i < |init| ==> !Raises(init[i])) && !Raises(rows[|rows| - 1])
  {
    assert forall i :: 0 <= i < |init| ==> init[i] == rows[i];
  }

  /** The scan succeeds exactly when no data row raises. */
  lemma {:induction false} CharlestonOkIffNoRaise(rows: seq<Row>)
    ensures CharlestonScan(rows).Ok? <==> forall i :: 0 <= i < |rows| ==> !Raises(rows[i])
  {
    if rows != [] {
      var init := rows[..|rows| - 1];
      CharlestonOkIffNoRaise(init);
      NoneRaiseSplit(rows, init);
      if CharlestonScan(init).Ok? {
        CharlestonStepOk(CharlestonScan(init).value, rows[|rows| - 1]);
      }
    }
  }

  lemma CharlestonStepRaises(acc: seq<string>, row: Row)
    requires Raises(row)
    ensures CharlestonStep(acc, row) == Err(BadBookNumber(Strip(row[1])))
  {
  }

  lemma NoneRaiseBefore(rows: seq<Row>, k: nat)
    requires k <= |rows|
    requires forall i :: 0 <= i < k ==> !Raises(rows[i])
    ensures forall i :: 0 <= i < |rows[..k]| ==> !Raises(rows[..k][i])
  {
  }

  /** When the first raising row is row `k`, the scan ends with that row's
      fault, whatever follows it. */
  lemma {:induction false} CharlestonFirstRaise(rows: seq<Row>, k: nat)
    requires k < |rows| && Raises(rows[k])
    requires forall i :: 0 <= i < k ==> !Raises(rows[i])
    ensures CharlestonScan(rows) == Err(BadBookNumber(Strip(rows[k][1])))
  {
    NoneRaiseBefore(rows, k);
    CharlestonOkIffNoRaise(rows[..k]);
    CharlestonScanExtend(rows, k);
    CharlestonStepRaises(CharlestonScan(rows[..k]).value, rows[k]);
    CharlestonFaultStays(rows, k + 1);
  }

  /** The row's token is `t` and the filter keeps it. */
  predicate CarriesKept(row: Row, t: string) {
    BookPageCell(row) == Some(t) && CharlestonVerdict(t) == Keep
  }

  lemma CharlestonStepMembers(acc: seq<string>, row: Row, out: seq<string>, t: string)
    requires CharlestonStep(acc, row) == Ok(out)
    ensures t in out <==> t in acc || CarriesKept(row, t)
  {
  }

  lemma SomeRowCarries(rows: seq<Row>, init: seq<Row>, t: string)
    requires rows != [] && init == rows[..|rows| - 1]
    ensures (exists i :: 0 <= i < |rows| && CarriesKept(rows[i], t)) <==>
            (exists i :: 0 <= i < |init| && CarriesKept(init[i], t)) || CarriesKept(rows[|rows| - 1], t)
  {
    assert forall i :: 0 <= i < |init| ==> init[i] == rows[i];
  }

  /** A token is kept exactly when some data row carries it and the filter
      keeps it. */
  lemma {:induction false} CharlestonMembership(rows: seq<Row>, out: seq<string>, t: string)
    requires CharlestonScan(rows) == Ok(out)
    ensures t in out <==> exists i :: 0 <= i < |rows| && CarriesKept(rows[i], t)
  {
    if rows != [] {
      var init := rows[..|rows| - 1];
      var acc := CharlestonScan(init).value;
      CharlestonMembership(init, acc, t);
      CharlestonStepMembers(acc, rows[|rows| - 1], out, t);
      SomeRowCarries(rows, init, t);
    }
  }

  /** The first row is never read, whatever it holds. */
  lemma CharlestonSkipsHeader(header: Row, rows: seq<Row>)
    ensures CharlestonDeeds(Some([header] + rows)) == CharlestonScan(rows)
  {
    assert ([header] + rows)[1..] == rows;
  }

  /** Letter-prefixed books with a plain number: kept exactly when the number
      is at least 280. */
  lemma LetterBookThreshold(letter: char, digits: string)
    requires IsAlpha(letter) && digits != [] && AllDigits(digits)
    ensures CharlestonVerdict([letter] + digits) == (if DecimalValue(digits) >= MIN_LETTER_BOOK then Keep else Drop)
  {
    assert ([letter] + digits)[1..] == digits;
    ParseIntOfDigits(digits);
  }

  /** A letter-prefixed token that also carries its page, such as "A285 112",
      makes `int()` raise, since the page is part of what it parses. */
  lemma LetterBookWithPageRaises(letter: char, book: string, sep: string, page: string)
    requires IsAlpha(letter)
    requires book != [] && AllDigits(book) && page != [] && AllDigits(page)
    requires sep != [] && AllSpace(sep)
    ensures CharlestonVerdict([letter] + book + sep + page) == Raise
  {
    assert ([letter] + book + sep + page)[1..] == book + sep + page;
    ParseIntRejectsTwoNumbers(book, sep, page);
  }

  /** A book number that itself starts with a letter is no number: a token
      such as "AB123" makes the filter raise. */
  lemma TwoLettersRaise(letter: char, second: char, rest: string)
    requires IsAlpha(letter) && IsAlpha(second)
    ensures CharlestonVerdict([letter, second] + rest) == Raise
  {
    assert ([letter, second] + rest)[1..] == [] + [second] + rest;
    ParseIntRejectsForeign([], second, rest);
  }

  /** A separator \x1c..\x1f right after the letter is not whitespace to
      `int()`, so the filter raises whatever digits follow. */
  lemma LetterThenSeparatorRaises(letter: char, c: char, rest: string)
    requires IsAlpha(letter) && IsSeparator(c)
    ensures CharlestonVerdict([letter, c] + rest) == Raise
  {
    assert ([letter, c] + rest)[1..] == [] + [c] + rest;
    ParseIntRejectsSeparator([], c, rest);
  }

  /** Tokens that start with a digit are always kept; empty tokens and tokens
      starting with neither a letter nor a digit never are. */
  lemma CharlestonLeadingCharacter(t: string)
    ensures t != [] && IsDigit(t[0]) ==> CharlestonVerdict(t) == Keep
    ensures t == [] || (!IsAlpha(t[0]) && !IsDigit(t[0])) ==> CharlestonVerdict(t) == Drop
    ensures t != [] && IsAlpha(t[0]) ==> (CharlestonVerdict(t) == Keep <==>
              ParseInt(t[1..]).Some? && ParseInt(t[1..]).value >= MIN_LETTER_BOOK)
  {
  }

  /** The Charleston loop, as written: appends to `deed_links` row by row and
      lets the `int()` error escape. */
  method ExtractCharleston(table: Option<seq<Row>>) returns (r: Result<seq<string>>)
    ensures r == CharlestonDeeds(table)
  {
    var deedLinks: seq<string> := [];
    if table.Some? {
      var rows := DataRows(table.value);
      for i := 0 to |rows|
        invariant CharlestonScan(rows[..i]) == Ok(deedLinks)
      {
        var row := rows[i];
        CharlestonScanExtend(rows, i);
        if |row| >= 2 {
          var bookPage := Strip(row[1]);
          if bookPage != [] && IsAlpha(bookPage[0]) {
            var numPart := ParseInt(bookPage[1..]);
            if numPart.None? {
              CharlestonFaultStays(rows, i + 1);
              return Err(BadBookNumber(bookPage));
            }
            if numPart.value >= MIN_LETTER_BOOK {
              deedLinks := deedLinks + [bookPage];
            }
          } else if bookPage != [] && IsDigit(bookPage[0]) {
            deedLinks := deedLinks + [bookPage];
          }
        }
      }
      assert rows[..|rows|] == rows;
    }
    return Ok(deedLinks);
  }

  // ---------------------------------------------------------------------
  // Berkeley

  /** One iteration of the Berkeley row loop. */
  function BerkeleyStep(acc: seq<string>, row: Row): seq<string>
  {
    match BookPageCell(row)
    case Some(t) => if t != [] then acc + [t] else acc
    case None => acc
  }

  /** The Berkeley loop over data rows: every non-empty stripped second cell. */
  function BerkeleyScan(rows: seq<Row>): (r: seq<string>)
    ensures |r| <= |rows|
  {
    if rows == [] then [] else BerkeleyStep(BerkeleyScan(rows[..|rows| - 1]), rows[|rows| - 1])
  }

  function BerkeleyDeeds(rows: seq<Row>): (r: seq<string>)
    ensures |r| <= if rows != [] then |rows| - 1 else 0
  {
    BerkeleyScan(DataRows(rows))
  }

  /** Scanning two blocks of rows is scanning each in turn. */
  lemma {:induction false} BerkeleyScanAppend(a: seq<Row>, b: seq<Row>)
    ensures BerkeleyScan(a + b) == BerkeleyScan(a) + BerkeleyScan(b)
    decreases |b|
  {
    if b == [] {
      assert a + b == a;
    } else {
      var b' := b[..|b| - 1];
      var row := b[|b| - 1];
      assert (a + b)[..|a + b| - 1] == a + b';
      assert (a + b)[|a + b| - 1] == row;
      BerkeleyScanAppend(a, b');
      var x, y := BerkeleyScan(a), BerkeleyScan(b');
      if BookPageCell(row).Some? && BookPageCell(row).value != [] {
        assert x + y + [BookPageCell(row).value] == x + (y + [BookPageCell(row).value]);
      }
    }
  }

  /** The row's token is `t`, and `t` is not empty. */
  predicate CarriesToken(row: Row, t: string) {
    t != [] && BookPageCell(row) == Some(t)
  }

  lemma SomeRowHolds(rows: seq<Row>, init: seq<Row>, t: string)
    requires rows != [] && init == rows[..|rows| - 1]
    ensures (exists i :: 0 <= i < |rows| && CarriesToken(rows[i], t)) <==>
            (exists i :: 0 <= i < |init| && CarriesToken(init[i], t)) || CarriesToken(rows[|rows| - 1], t)
  {
    assert forall i :: 0 <= i < |init| ==> init[i] == rows[i];
  }

  lemma BerkeleyStepMembers(acc: seq<string>, row: Row, t: string)
    ensures t in BerkeleyStep(acc, row) <==> t in acc || CarriesToken(row, t)
  {
  }

  /** A token is in the Berkeley list exactly when some data row's stripped
      second cell is that token and it is not empty. */
  lemma {:induction false} BerkeleyMembership(rows: seq<Row>, t: string)
    ensures t in BerkeleyScan(rows) <==> exists i :: 0 <= i < |rows| && CarriesToken(rows[i], t)
  {
    if rows != [] {
      var init := rows[..|rows| - 1];
      BerkeleyMembership(init, t);
      BerkeleyStepMembers(BerkeleyScan(init), rows[|rows| - 1], t);
      SomeRowHolds(rows, init, t);
    }
  }

  /** Every Berkeley token is non-empty and already stripped, and there is
      at most one per row. */
  lemma {:induction false} BerkeleyTokensShape(rows: seq<Row>)
    ensures |BerkeleyScan(rows)| <= |rows|
    ensures forall t :: t in BerkeleyScan(rows) ==> t != [] && Strip(t) == t
  {
    if rows != [] {
      BerkeleyTokensShape(rows[..|rows| - 1]);
      var row := rows[|rows| - 1];
      if |row| >= 2 {
        StripIdempotent(row[1]);
      }
    }
  }

  lemma BerkeleySkipsHeader(header: Row, rows: seq<Row>)
    ensures BerkeleyDeeds([header] + rows) == BerkeleyScan(rows)
  {
    assert ([header] + rows)[1..] == rows;
  }

  /** The Berkeley loop, as written: appends every non-empty token. */
  method ExtractBerkeley(rows: seq<Row>) returns (deedList: seq<string>)
    ensures deedList == BerkeleyDeeds(rows)
  {
    deedList := [];
    var data := DataRows(rows);
    for i := 0 to |data|
      invariant deedList == BerkeleyScan(data[..i])
    {
      var row := data[i];
      assert data[..i + 1][..i] == data[..i];
      if |row| >= 2 {
        var bp := Strip(row[1]);
        if bp != [] {
          deedList := deedList + [bp];
        }
      }
    }
    assert data[..|data|] == data;
  }

  // ---------------------------------------------------------------------
  // The two extractors compared

  /** The tokens of a list the Charleston filter keeps, in order. */
  function KeptByCharleston(ts: seq<string>): seq<string>
  {
    if ts == [] then []
    else KeptByCharleston(ts[..|ts| - 1]) + (if CharlestonVerdict(ts[|ts| - 1]) == Keep then [ts[|ts| - 1]] else [])
  }

  /** When the Charleston scan succeeds, it returns the Berkeley list of the
      same rows with the book-number filter applied: the two extractors differ
      in the filter alone. */
  lemma {:induction false} CharlestonIsFilteredBerkeley(rows: seq<Row>)
    requires CharlestonScan(rows).Ok?
    ensures CharlestonScan(rows).value == KeptByCharleston(BerkeleyScan(rows))
  {
    if rows != [] {
      var init := rows[..|rows| - 1];
      var row := rows[|rows| - 1];
      CharlestonIsFilteredBerkeley(init);
      var b := BerkeleyScan(init);
      if BookPageCell(row).Some? && BookPageCell(row).value != [] {
        var t := BookPageCell(row).value;
        assert (b + [t])[..|b + [t]| - 1] == b;
      }
    }
  }

  /** Rows with fewer than two cells are ignored by both extractors. */
  lemma ShortRowIgnored(a: seq<Row>, row: Row, b: seq<Row>)
    requires |row| < 2
    ensures CharlestonScan(a + [row] + b) == CharlestonScan(a + b)
    ensures BerkeleyScan(a + [row] + b) == BerkeleyScan(a + b)
  {
    CharlestonScanAppend(a + [row], b);
    CharlestonScanAppend(a, [row]);
    CharlestonScanAppend(a, b);
    assert [row][..0] == [];
    BerkeleyScanAppend(a + [row], b);
    BerkeleyScanAppend(a, [row]);
    BerkeleyScanAppend(a, b);
    match CharlestonScan(a)
    case Err(_) =>
    case Ok(x) => assert x + [] == x;
  }

  lemma SameCellSameScan(row: Row, row': Row)
    requires BookPageCell(row) == BookPageCell(row')
    ensures CharlestonScan([row]) == CharlestonScan([row'])
    ensures BerkeleyScan([row]) == BerkeleyScan([row'])
  {
    assert [row][..0] == [] && [row'][..0] == [];
  }

  lemma CharlestonScanAround(a: seq<Row>, row: Row, b: seq<Row>)
    ensures CharlestonScan(a + [row] + b) == Chain(Chain(CharlestonScan(a), CharlestonScan([row])), CharlestonScan(b))
  {
    CharlestonScanAppend(a + [row], b);
    CharlestonScanAppend(a, [row]);
  }

  lemma BerkeleyScanAround(a: seq<Row>, row: Row, b: seq<Row>)
    ensures BerkeleyScan(a + [row] + b) == BerkeleyScan(a) + BerkeleyScan([row]) + BerkeleyScan(b)
  {
    BerkeleyScanAppend(a + [row], b);
    BerkeleyScanAppend(a, [row]);
  }

  /** Both extractors read nothing of a row but its stripped second cell. */
  lemma OnlySecondCellRead(a: seq<Row>, row: Row, row': Row, b: seq<Row>)
    requires BookPageCell(row) == BookPageCell(row')
    ensures CharlestonScan(a + [row] + b) == CharlestonScan(a + [row'] + b)
    ensures BerkeleyScan(a + [row] + b) == BerkeleyScan(a + [row'] + b)
  {
    SameCellSameScan(row, row');
    CharlestonScanAround(a, row, b);
    CharlestonScanAround(a, row', b);
    BerkeleyScanAround(a, row, b);
    BerkeleyScanAround(a, row', b);
  }
}
