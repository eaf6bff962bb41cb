/** Image extraction from a spreadsheet column (gsheet/grab_chars.py): the
    walk over the API's nested response in `get_column_images`, and the file
    names `download_images` saves under. The API call itself and the
    downloads are not modelled; the response is the input. */
module GrabChars {
  import opened Text
  import opened Results

  // ---------------------------------------------------------------------------
  // The response: JSON objects whose keys may be missing
  // ---------------------------------------------------------------------------

  datatype Image = Image(imageUrl: Option<string>)
  datatype ExtendedValue = ExtendedValue(image: Option<Image>, formulaValue: Option<string>)
  datatype Cell = Cell(effectiveValue: Option<ExtendedValue>)
  datatype Row = Row(values: Option<seq<Cell>>)
  datatype Grid = Grid(rowData: Option<seq<Row>>)
  datatype Sheet = Sheet(data: Option<seq<Grid>>)
  datatype Response = Response(sheets: Option<seq<Sheet>>)

  /** The exceptions the walk can raise. */
  datatype ScanError =
    | MissingImageUrl  // KeyError: an image value without "imageUrl"
    | NoQuote          // IndexError: an =IMAGE( formula without a double quote

  const ImagePrefix: string := "=IMAGE("

  // ---------------------------------------------------------------------------
  // One cell
  // ---------------------------------------------------------------------------

  /** `formula.split('"')[1]`: the piece after the first double quote, or
      IndexError when the formula has none. */
  function QuotedField(formula: string): (r: Result<string, ScanError>)
    ensures r.Failure? <==> '"' !in formula
    ensures r.Failure? ==> r.error == NoQuote
    ensures r.Success? ==> '"' !in r.value
  {
    var parts := Split(formula, '"');
    if |parts| > 1 then Success(parts[1]) else Failure(NoQuote)
  }

  /** Where the quoted field sits: right after the first double quote of the
      formula, running up to the next double quote or to the end. */
  lemma QuotedFieldPosition(formula: string)
    requires '"' in formula
    ensures exists i :: 0 <= i < |formula| && formula[i] == '"' && '"' !in formula[..i]
              && i + 1 + |QuotedField(formula).value| <= |formula|
              && formula[i + 1..i + 1 + |QuotedField(formula).value|] == QuotedField(formula).value
              && (i + 1 + |QuotedField(formula).value| == |formula|
                  || formula[i + 1 + |QuotedField(formula).value|] == '"')
  {
    var parts := Split(formula, '"');
    var u := parts[1];
    SplitJoinRoundTrip(formula, '"');
    var tail := Join(parts[1..], '"');
    assert formula == parts[0] + ['"'] + tail;
    var after := if |parts| == 2 then [] else ['"'] + Join(parts[2..], '"');
    assert tail == u + after by {
      if |parts| > 2 {
        assert parts[1..][1..] == parts[2..];
      }
    }
    var i := |parts[0]|;
    assert formula[..i] == parts[0];
    assert formula[i] == '"';
    assert formula[i + 1..] == u + after;
    assert formula[i + 1..i + 1 + |u|] == u;
    assert i + 1 + |u| < |formula| ==> formula[i + 1 + |u|] == after[0];
  }

  /** What one cell adds to the list: nothing without an `effectiveValue`;
      the image's URL for an image value; the quoted field of a formula that
      starts with `=IMAGE(`; nothing for any other value. At most one URL. */
  function CellUrls(c: Cell): (r: Result<seq<string>, ScanError>)
    ensures c.effectiveValue.None? ==> r == Success([])
    ensures r.Success? ==> |r.value| <= 1
    ensures c.effectiveValue.Some? && c.effectiveValue.value.image.Some? ==>
              match c.effectiveValue.value.image.value.imageUrl
              case Some(url) => r == Success([url])
              case None => r == Failure(MissingImageUrl)
    ensures r.Failure? && r.error == NoQuote ==>
              c.effectiveValue.Some? && c.effectiveValue.value.image.None?
              && c.effectiveValue.value.formulaValue.Some?
              && StartsWith(c.effectiveValue.value.formulaValue.value, ImagePrefix)
              && '"' !in c.effectiveValue.value.formulaValue.value
    ensures r.Success? && |r.value| == 1 && c.effectiveValue.value.image.None? ==>
              var f := c.effectiveValue.value.formulaValue;
              f.Some? && StartsWith(f.value, ImagePrefix) && QuotedField(f.value) == Success(r.value[0])
    ensures var ev := c.effectiveValue;
            ev.Some? && ev.value.image.None? ==>
              r == (if ev.value.formulaValue.Some? && StartsWith(ev.value.formulaValue.value, ImagePrefix)
                    then (if '"' in ev.value.formulaValue.value
                          then Success([QuotedField(ev.value.formulaValue.value).value])
                          else Failure(NoQuote))
                    else Success([]))
  {
    match c.effectiveValue
    case None => Success([])
    case Some(ev) =>
      if ev.image.Some? then
        match ev.image.value.imageUrl
        case Some(url) => Success([url])
        case None => Failure(MissingImageUrl)
      else if ev.formulaValue.Some? then
        var formula := ev.formulaValue.value;
        if StartsWith(formula, ImagePrefix) then
          match QuotedField(formula)
          case Success(url) => Success([url])
          case Failure(e) => Failure(e)
        else Success([])
      else Success([])
  }

  // ---------------------------------------------------------------------------
  // The nested walk and its flat reference
  // ---------------------------------------------------------------------------

  /** Appending to a list that may have raised: the first exception wins. */
  function Combine(a: Result<seq<string>, ScanError>, b: Result<seq<string>, ScanError>): Result<seq<string>, ScanError>
  {
    match a
    case Failure(e) => Failure(e)
    case Success(x) =>
      match b
      case Failure(e) => Failure(e)
      case Success(y) => Success(x + y)
  }

  /** A `for` loop appending each item's URLs to the result, in order, and
      stopping at the first exception. */
  function Gather<T>(xs: seq<T>, f: T -> Result<seq<string>, ScanError>): Result<seq<string>, ScanError>
    decreases |xs|
  {
    if |xs| == 0 then Success([]) else Combine(f(xs[0]), Gather(xs[1..], f))
  }

  /** The items of each element, laid end to end. */
  function Concat<T, U>(xs: seq<T>, g: T -> seq<U>): seq<U>
    decreases |xs|
  {
    if |xs| == 0 then [] else g(xs[0]) + Concat(xs[1..], g)
  }

  function RowUrls(r: Row): Result<seq<string>, ScanError>
  {
    Gather(OrEmpty(r.values), CellUrls)
  }

  function GridUrls(g: Grid): Result<seq<string>, ScanError>
  {
    Gather(OrEmpty(g.rowData), RowUrls)
  }

  function SheetUrls(s: Sheet): Result<seq<string>, ScanError>
  {
    Gather(OrEmpty(s.data), GridUrls)
  }

  function RowCells(r: Row): seq<Cell>
  {
    OrEmpty(r.values)
  }

  function GridCells(g: Grid): seq<Cell>
  {
    Concat(OrEmpty(g.rowData), RowCells)
  }

  function SheetCells(s: Sheet): seq<Cell>
  {
    Concat(OrEmpty(s.data), GridCells)
  }

  /** Every cell of the response in sheet, grid, row, cell order; a missing
      key contributes no cells. */
  function AllCells(resp: Response): seq<Cell>
  {
    Concat(OrEmpty(resp.sheets), SheetCells)
  }

  lemma CombineAssociative(a: Result<seq<string>, ScanError>, b: Result<seq<string>, ScanError>, c: Result<seq<string>, ScanError>)
    ensures Combine(Combine(a, b), c) == Combine(a, Combine(b, c))
  {
    if a.Success? && b.Success? && c.Success? {
      assert (a.value + b.value) + c.value == a.value + (b.value + c.value);
    }
  }

  lemma {:induction false} GatherAppend<T>(xs: seq<T>, ys: seq<T>, f: T -> Result<seq<string>, ScanError>)
    ensures Gather(xs + ys, f) == Combine(Gather(xs, f), Gather(ys, f))
    decreases |xs|
  {
    if |xs| == 0 {
      assert xs + ys == ys;
      var b := Gather(ys, f);
      if b.Success? {
        assert [] + b.value == b.value;
      }
    } else {
      assert (xs + ys)[1..] == xs[1..] + ys;
      GatherAppend(xs[1..], ys, f);
      CombineAssociative(f(xs[0]), Gather(xs[1..], f), Gather(ys, f));
    }
  }

  /** Walking the nested lists is walking their concatenation. */
  lemma {:induction false} GatherConcat<T, U>(xs: seq<T>, g: T -> seq<U>, f: U -> Result<seq<string>, ScanError>,
                                              h: T -> Result<seq<string>, ScanError>)
    requires forall x :: h(x) == Gather(g(x), f)
    ensures Gather(Concat(xs, g), f) == Gather(xs, h)
    decreases |xs|
  {
    if |xs| > 0 {
      GatherConcat(xs[1..], g, f, h);
      GatherAppend(g(xs[0]), Concat(xs[1..], g), f);
    }
  }

  /** The nested loops visit exactly the cells of `AllCells`, in that order. */
  lemma TraversalIsCellOrder(resp: Response)
    ensures Gather(OrEmpty(resp.sheets), SheetUrls) == Gather(AllCells(resp), CellUrls)
  {
    forall r: Row
      ensures RowUrls(r) == Gather(RowCells(r), CellUrls)
    {
    }
    forall g: Grid
      ensures GridUrls(g) == Gather(GridCells(g), CellUrls)
    {
      GatherConcat(OrEmpty(g.rowData), RowCells, CellUrls, RowUrls);
    }
    forall s: Sheet
      ensures SheetUrls(s) == Gather(SheetCells(s), CellUrls)
    {
      GatherConcat(OrEmpty(s.data), GridCells, CellUrls, GridUrls);
    }
    GatherConcat(OrEmpty(resp.sheets), SheetCells, CellUrls, SheetUrls);
  }

  /** The URLs a cell adds when it does not raise. */
  function UrlsOf(c: Cell): seq<string>
  {
    if CellUrls(c).Success? then CellUrls(c).value else []
  }

  /** The number of cells that carry an `effectiveValue`. */
  function ValuedCells(cells: seq<Cell>): nat
    decreases |cells|
  {
    if |cells| == 0 then 0
    else (if cells[0].effectiveValue.Some? then 1 else 0) + ValuedCells(cells[1..])
  }

  /** Walking a list of cells: it succeeds exactly when no cell raises, and
      then yields each cell's URLs in order, at most one per cell that has a
      value; otherwise it raises what the first raising cell raises. */
  lemma {:induction false} CellWalk(cells: seq<Cell>)
    ensures Gather(cells, CellUrls).Success? <==> forall k :: 0 <= k < |cells| ==> CellUrls(cells[k]).Success?
    ensures Gather(cells, CellUrls).Success? ==> Gather(cells, CellUrls).value == Concat(cells, UrlsOf)
    ensures Gather(cells, CellUrls).Success? ==> |Gather(cells, CellUrls).value| <= ValuedCells(cells)
    ensures Gather(cells, CellUrls).Failure? ==>
              exists k :: 0 <= k < |cells| && CellUrls(cells[k]) == Failure(Gather(cells, CellUrls).error)
                          && forall j :: 0 <= j < k ==> CellUrls(cells[j]).Success?
    decreases |cells|
  {
    if |cells| > 0 {
      CellWalk(cells[1..]);
      assert forall k :: 1 <= k < |cells| ==> cells[k] == cells[1..][k - 1];
      var r := Gather(cells, CellUrls);
      if CellUrls(cells[0]).Failure? {
        assert CellUrls(cells[0]) == Failure(r.error);
      } else if r.Failure? {
        var k :| 0 <= k < |cells[1..]| && CellUrls(cells[1..][k]) == Failure(Gather(cells[1..], CellUrls).error)
                 && forall j :: 0 <= j < k ==> CellUrls(cells[1..][j]).Success?;
        assert CellUrls(cells[k + 1]) == Failure(r.error);
        assert forall j :: 0 <= j < k + 1 ==> CellUrls(cells[j]).Success? by {
          forall j | 0 <= j < k + 1
            ensures CellUrls(cells[j]).Success?
          {
            if j > 0 {
              assert cells[j] == cells[1..][j - 1];
            }
          }
        }
      }
    }
  }

  /** `get_column_images` on a given response: four nested loops, each over a
      key read with `.get(key, [])`. It walks the response's cells in sheet,
      grid, row, cell order: it raises exactly when some cell raises, and
      then what the first raising cell raises; otherwise it returns each
      cell's URL in that order, never more URLs than cells with a value. */
  function GetColumnImages(resp: Response): (r: Result<seq<string>, ScanError>)
    ensures r == Gather(AllCells(resp), CellUrls)
    ensures r.Success? <==> forall k :: 0 <= k < |AllCells(resp)| ==> CellUrls(AllCells(resp)[k]).Success?
    ensures r.Success? ==> r.value == Concat(AllCells(resp), UrlsOf) && |r.value| <= ValuedCells(AllCells(resp))
    ensures r.Failure? ==>
              exists k :: 0 <= k < |AllCells(resp)| && CellUrls(AllCells(resp)[k]) == Failure(r.error)
                          && forall j :: 0 <= j < k ==> CellUrls(AllCells(resp)[j]).Success?
  {
    TraversalIsCellOrder(resp);
    CellWalk(AllCells(resp));
    Gather(OrEmpty(resp.sheets), SheetUrls)
  }

  // ---------------------------------------------------------------------------
  // File names for the downloads
  // ---------------------------------------------------------------------------

  const OutputFolder: string := "downloaded_images"

  /** The URL ends in ".jpg", in any mix of upper and lower case. */
  predicate EndsWithJpgAnyCase(url: string)
  {
    && |url| >= 4
    && url[|url| - 4] == '.'
    && (url[|url| - 3] == 'j' || url[|url| - 3] == 'J')
    && (url[|url| - 2] == 'p' || url[|url| - 2] == 'P')
    && (url[|url| - 1] == 'g' || url[|url| - 1] == 'G')
  }

  /** Lower-casing first makes the ".jpg" test blind to case. */
  lemma LowerEndsWithJpg(url: string)
    ensures EndsWith(Lower(url), ".jpg") <==> EndsWithJpgAnyCase(url)
  {
    var lower := Lower(url);
    if |url| >= 4 {
      var tail := lower[|url| - 4..];
      assert tail[0] == LowerChar(url[|url| - 4]);
      assert tail[1] == LowerChar(url[|url| - 3]);
      assert tail[2] == LowerChar(url[|url| - 2]);
      assert tail[3] == LowerChar(url[|url| - 1]);
      if EndsWithJpgAnyCase(url) {
        assert tail == ".jpg";
      }
    }
  }

  /** `'jpg' if url.lower().endswith('.jpg') else 'png'`: "jpg" exactly for
      URLs ending in ".jpg" whatever their case, "png" for everything else. */
  function Extension(url: string): (ext: string)
    ensures ext == "jpg" || ext == "png"
    ensures ext == "jpg" <==> EndsWithJpgAnyCase(url)
  {
    LowerEndsWithJpg(url);
    if EndsWith(Lower(url), ".jpg") then "jpg" else "png"
  }

  const NamePrefix: string := OutputFolder + "/image_"

  /** `f"{OUTPUT_FOLDER}/image_{i}.{ext}"`. */
  function ImageFileName(i: nat, url: string): (name: string)
    ensures StartsWith(name, NamePrefix) && |NamePrefix| + 4 < |name|
    ensures name[|NamePrefix|..|name| - 4] == NatToString(i)
    ensures name[|name| - 4..] == "." + Extension(url)
  {
    var digits := NatToString(i);
    var ext := "." + Extension(url);
    var name := NamePrefix + digits + ext;
    assert name[..|NamePrefix|] == NamePrefix;
    assert name[|NamePrefix|..|name| - 4] == digits;
    assert name[|name| - 4..] == ext;
    name
  }

  /** The number in a file name can be read back from between the prefix and
      the extension, so different numbers give different names. */
  lemma ImageFileNameInjective(i: nat, u: string, j: nat, v: string)
    requires i != j
    ensures ImageFileName(i, u) != ImageFileName(j, v)
  {
    NatToStringInjective(i, j);
  }

  /** The names `download_images` saves the URLs under, numbered from 1 in
      list order (a failed download still uses up its number). No two URLs
      share a name, and each name's extension follows its URL. */
  function DownloadPlan(urls: seq<string>): (names: seq<string>)
    ensures |names| == |urls|
    ensures forall a, b :: 0 <= a < b < |urls| ==> names[a] != names[b]
    ensures forall k :: 0 <= k < |urls| ==> (EndsWith(names[k], ".jpg") <==> EndsWithJpgAnyCase(urls[k]))
    ensures forall k :: 0 <= k < |urls| ==>
              && StartsWith(names[k], NamePrefix) && |NamePrefix| + 4 < |names[k]|
              && names[k][|NamePrefix|..|names[k]| - 4] == NatToString(k + 1)
              && names[k][|names[k]| - 4..] == "." + Extension(urls[k])
  {
    var names := seq(|urls|, k requires 0 <= k < |urls| => ImageFileName(k + 1, urls[k]));
    PlanNamesDistinct(urls, names);
    PlanExtensions(urls, names);
    names
  }

  lemma PlanNamesDistinct(urls: seq<string>, names: seq<string>)
    requires |names| == |urls|
    requires forall k :: 0 <= k < |urls| ==> names[k] == ImageFileName(k + 1, urls[k])
    ensures forall a, b :: 0 <= a < b < |urls| ==> names[a] != names[b]
  {
    forall a, b | 0 <= a < b < |urls|
      ensures names[a] != names[b]
    {
      var x := ImageFileName(a + 1, urls[a]);
      var y := ImageFileName(b + 1, urls[b]);
      ImageFileNameInjective(a + 1, urls[a], b + 1, urls[b]);
      assert names[a] == x && names[b] == y;
    }
  }

  lemma PlanExtensions(urls: seq<string>, names: seq<string>)
    requires |names| == |urls|
    requires forall k :: 0 <= k < |urls| ==> names[k] == ImageFileName(k + 1, urls[k])
    ensures forall k :: 0 <= k < |urls| ==> (EndsWith(names[k], ".jpg") <==> EndsWithJpgAnyCase(urls[k]))
  {
    forall k | 0 <= k < |urls|
      ensures EndsWith(names[k], ".jpg") <==> EndsWithJpgAnyCase(urls[k])
    {
      NameExtension(k + 1, urls[k]);
    }
  }

  /** A file name ends in ".jpg" exactly when its URL ends in ".jpg" in any case. */
  lemma NameExtension(i: nat, url: string)
    ensures EndsWith(ImageFileName(i, url), ".jpg") <==> EndsWithJpgAnyCase(url)
  {
    var name := ImageFileName(i, url);
    var ext := Extension(url);
    assert name[|name| - 4..] == "." + ext;
    assert ("." + ext)[1..] == ext;
  }
}
