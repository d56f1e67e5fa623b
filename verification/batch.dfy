/**
  The batch driver of scraper.py: one pass over the rows of the parcels
  spreadsheet, making the output folders and handing each parcel to the
  scraper of its county. The spreadsheet is given as its rows' TMS and
  County texts; what the scrapers do is Navigator's concern, and each of
  them catches its own exceptions, so one parcel's failure never ends the
  batch.
 */
module Batch {
  import opened Results
  import opened PyStr
  import opened Navigator

  /** The directory every parcel folder is made in. */
  const OUTPUT_DIR := "property_records"

  const CHARLESTON := "charleston"
  const BERKELEY := "berkeley"

  /** One spreadsheet row: the text of its TMS cell and of its County cell. */
  datatype Input = Input(tms: string, county: string)

  /** What the batch does, in order. */
  datatype Effect =
    | MakeDir(path: string)                               // os.makedirs(path, exist_ok=True)
    | Scrape(county: County, tms: string, folder: string)  // scrape_charleston / scrape_berkeley
    | WarnUnknown(name: string, tms: string)               // the "Unknown county" message
    | Quit                                                 // driver.quit()

  /** `row["County"].strip().lower()`. */
  function NormalizeCounty(raw: string): (r: string)
    ensures |r| <= |raw|
    ensures forall i :: 0 <= i < |r| ==> !('A' <= r[i] <= 'Z')
  {
    Lower(Strip(raw))
  }

  /** The scraper a normalised county name selects, if any. */
  function Dispatch(county: string): (r: Option<County>)
    ensures r == Some(Charleston) <==> county == CHARLESTON
    ensures r == Some(Berkeley) <==> county == BERKELEY
    ensures r == None <==> county != CHARLESTON && county != BERKELEY
  {
    if county == CHARLESTON then Some(Charleston)
    else if county == BERKELEY then Some(Berkeley)
    else None
  }

  /** The folder a parcel's captures go to: `os.path.join(output_dir, tms)`. */
  function ParcelFolder(tms: string): (r: string)
    ensures EndsWith(r, tms)
  {
    PathJoin(OUTPUT_DIR, tms)
  }

  /** One iteration of the row loop. The folder is made before the county
      is looked at, so an unknown county still gets its (empty) folder. */
  function RowEffects(input: Input): seq<Effect>
  {
    var tms := Strip(input.tms);
    var county := NormalizeCounty(input.county);
    var folder := ParcelFolder(tms);
    [MakeDir(folder)] +
      match Dispatch(county)
      case Some(c) => [Scrape(c, tms, folder)]
      case None => [WarnUnknown(county, tms)]
  }

  /** The row loop over a block of rows. */
  function RowsEffects(inputs: seq<Input>): seq<Effect>
  {
    if inputs == [] then [] else RowsEffects(inputs[..|inputs| - 1]) + RowEffects(inputs[|inputs| - 1])
  }

  /** The whole run: the output directory, the row loop, then the browser
      is closed. */
  function BatchEffects(inputs: seq<Input>): seq<Effect>
  {
    [MakeDir(OUTPUT_DIR)] + RowsEffects(inputs) + [Quit]
  }

  /** The row loop as written. */
  method RunBatch(inputs: seq<Input>) returns (effects: seq<Effect>)
    ensures effects == BatchEffects(inputs)
  {
    effects := [MakeDir(OUTPUT_DIR)];
    for i := 0 to |inputs|
      invariant effects == [MakeDir(OUTPUT_DIR)] + RowsEffects(inputs[..i])
    {
      var tms := Strip(inputs[i].tms);
      var county := NormalizeCounty(inputs[i].county);
      var folder := ParcelFolder(tms);
      var step: Effect;
      if county == CHARLESTON {
        step := Scrape(Charleston, tms, folder);
      } else if county == BERKELEY {
        step := Scrape(Berkeley, tms, folder);
      } else {
        step := WarnUnknown(county, tms);
      }
      assert [MakeDir(folder), step] == RowEffects(inputs[i]);
      RowsEffectsExtend(inputs, i);
      AppendAssoc([MakeDir(OUTPUT_DIR)], RowsEffects(inputs[..i]), RowEffects(inputs[i]));
      effects := effects + [MakeDir(folder), step];
    }
    assert inputs[..|inputs|] == inputs;
    effects := effects + [Quit];
  }

  lemma RowsEffectsExtend(inputs: seq<Input>, i: nat)
    requires i < |inputs|
    ensures RowsEffects(inputs[..i + 1]) == RowsEffects(inputs[..i]) + RowEffects(inputs[i])
  {
    assert inputs[..i + 1][..i] == inputs[..i];
    assert inputs[..i + 1][i] == inputs[i];
  }

  lemma AppendAssoc(a: seq<Effect>, b: seq<Effect>, c: seq<Effect>)
    ensures a + b + c == a + (b + c)
  {
  }

  /** Every row's effects are its folder, then its scrape or its warning. */
  lemma RowEffectsShape(input: Input)
    ensures |RowEffects(input)| == 2
    ensures RowEffects(input)[0] == MakeDir(ParcelFolder(Strip(input.tms)))
    ensures RowEffects(input)[1].Scrape? <==> Dispatch(NormalizeCounty(input.county)).Some?
    ensures RowEffects(input)[1].WarnUnknown? <==> Dispatch(NormalizeCounty(input.county)).None?
  {
  }

  /** What a row does is part of what the row loop does. */
  lemma {:induction false} RowInRows(inputs: seq<Input>, i: nat, e: Effect)
    requires i < |inputs| && e in RowEffects(inputs[i])
    ensures e in RowsEffects(inputs)
  {
    var init := inputs[..|inputs| - 1];
    var last := inputs[|inputs| - 1];
    assert RowsEffects(inputs) == RowsEffects(init) + RowEffects(last);
    if i < |init| {
      assert init[i] == inputs[i];
      RowInRows(init, i, e);
      InFront(e, RowsEffects(init), RowEffects(last));
    } else {
      assert i == |inputs| - 1;
      assert RowEffects(inputs[i]) == RowEffects(last);
      InBack(e, RowsEffects(init), RowEffects(last));
    }
  }

  lemma InFront(e: Effect, a: seq<Effect>, b: seq<Effect>)
    requires e in a
    ensures e in a + b
  {
  }

  lemma InBack(e: Effect, a: seq<Effect>, b: seq<Effect>)
    requires e in b
    ensures e in a + b
  {
  }

  /** Every row gets its folder, whatever its county; a row with a known
      county gets its scraper, and any other row the warning. */
  lemma EveryRowGetsFolder(inputs: seq<Input>, i: nat)
    requires i < |inputs|
    ensures MakeDir(ParcelFolder(Strip(inputs[i].tms))) in BatchEffects(inputs)
    ensures Dispatch(NormalizeCounty(inputs[i].county)).Some? ==>
      Scrape(Dispatch(NormalizeCounty(inputs[i].county)).value, Strip(inputs[i].tms), ParcelFolder(Strip(inputs[i].tms)))
        in BatchEffects(inputs)
    ensures Dispatch(NormalizeCounty(inputs[i].county)).None? ==>
      WarnUnknown(NormalizeCounty(inputs[i].county), Strip(inputs[i].tms)) in BatchEffects(inputs)
  {
    var r := RowEffects(inputs[i]);
    RowEffectsShape(inputs[i]);
    assert r[0] in r && r[1] in r;
    RowInRows(inputs, i, r[0]);
    RowInRows(inputs, i, r[1]);
  }

  /** The number of scrapes in a list of effects. */
  function ScrapeCount(effects: seq<Effect>): nat
  {
    if effects == [] then 0
    else ScrapeCount(effects[..|effects| - 1]) + (if effects[|effects| - 1].Scrape? then 1 else 0)
  }

  /** The number of rows whose county selects a scraper. */
  function KnownCount(inputs: seq<Input>): nat
  {
    if inputs == [] then 0
    else KnownCount(inputs[..|inputs| - 1]) + (if Dispatch(NormalizeCounty(inputs[|inputs| - 1].county)).Some? then 1 else 0)
  }

  lemma {:induction false} ScrapeCountAppend(a: seq<Effect>, b: seq<Effect>)
    ensures ScrapeCount(a + b) == ScrapeCount(a) + ScrapeCount(b)
    decreases |b|
  {
    if b == [] {
      assert a + b == a;
    } else {
      var b' := b[..|b| - 1];
      assert (a + b)[..|a + b| - 1] == a + b';
      assert (a + b)[|a + b| - 1] == b[|b| - 1];
      ScrapeCountAppend(a, b');
    }
  }

  /** Exactly one scraper runs per row with a known county, and none for
      the others. */
  lemma {:induction false} ScrapesMatchKnownRows(inputs: seq<Input>)
    ensures ScrapeCount(BatchEffects(inputs)) == KnownCount(inputs)
  {
    RowsScrapes(inputs);
    ScrapeCountAppend([MakeDir(OUTPUT_DIR)], RowsEffects(inputs));
    ScrapeCountAppend([MakeDir(OUTPUT_DIR)] + RowsEffects(inputs), [Quit]);
    assert [MakeDir(OUTPUT_DIR)][..0] == [];
    assert [Quit][..0] == [];
  }

  lemma {:induction false} RowsScrapes(inputs: seq<Input>)
    ensures ScrapeCount(RowsEffects(inputs)) == KnownCount(inputs)
  {
    if inputs != [] {
      var init := inputs[..|inputs| - 1];
      var last := inputs[|inputs| - 1];
      RowsScrapes(init);
      ScrapeCountAppend(RowsEffects(init), RowEffects(last));
      RowScrapeCount(last);
    }
  }

  /** A row scrapes once if its county is known, and otherwise not at all. */
  lemma RowScrapeCount(input: Input)
    ensures ScrapeCount(RowEffects(input)) == if Dispatch(NormalizeCounty(input.county)).Some? then 1 else 0
  {
    var r := RowEffects(input);
    RowEffectsShape(input);
    assert r[..1][..0] == [];
    assert r[..1][0] == r[0];
    assert ScrapeCount(r[..1]) == 0;
    assert r[..|r| - 1] == r[..1];
  }

  /** The county match ignores surrounding whitespace and letter case:
      a cell selects the Charleston scraper exactly when, stripped, it is
      "charleston" in any mix of cases, and likewise for Berkeley. */
  lemma DispatchIgnoresCase(raw: string)
    ensures Dispatch(NormalizeCounty(raw)) == Some(Charleston) <==> EqualIgnoringCase(Strip(raw), CHARLESTON)
    ensures Dispatch(NormalizeCounty(raw)) == Some(Berkeley) <==> EqualIgnoringCase(Strip(raw), BERKELEY)
  {
    LowerOfCharleston();
    LowerOfBerkeley();
    LowerMatchesLiteral(Strip(raw), CHARLESTON);
    LowerMatchesLiteral(Strip(raw), BERKELEY);
  }

  lemma LowerOfCharleston()
    ensures Lower(CHARLESTON) == CHARLESTON
  {
    LowerOfLowercase(CHARLESTON);
  }

  lemma LowerOfBerkeley()
    ensures Lower(BERKELEY) == BERKELEY
  {
    LowerOfLowercase(BERKELEY);
  }

  /** Whitespace around the county name changes nothing. */
  lemma NormalizeIgnoresPadding(a: string, raw: string, b: string)
    requires AllSpace(a) && AllSpace(b)
    ensures NormalizeCounty(a + raw + b) == NormalizeCounty(raw)
  {
    StripIgnoresPadding(a, raw, b);
  }

  /** A relative TMS gets the folder `property_records/<tms>`. */
  lemma FolderUnderOutput(tms: string)
    requires tms == [] || tms[0] != '/'
    ensures ParcelFolder(tms) == OUTPUT_DIR + "/" + tms
  {
    PathJoinRelative(OUTPUT_DIR, tms);
  }
}
