/** The rows of an imported CSV file and what becomes of each. */
module CsvImport {
  import opened Common
  import Csv
  import opened CsvFiles

  function Lower(c: char): char {
    if 'A' <= c <= 'Z' then c - 'A' + 'a' else c
  }

  function LowerCase(h: string): string {
    seq(|h|, i requires 0 <= i < |h| => Lower(h[i]))
  }

  function HeaderName(h: string): string {
    Trim(LowerCase(h))
  }

  const LAT_COLUMNS := ["lat", "latitude", "lat_deg", "y"]
  const LNG_COLUMNS := ["lng", "lon", "longitude", "long", "x"]
  const WKT_COLUMNS := ["wkt", "geometry", "geom", "the_geom"]

  /** `findIndex`: the first matching header, or -1. */
  function FindColumn(headers: seq<string>, names: seq<string>): (k: int)
    ensures -1 <= k < |headers|
    ensures k >= 0 ==> HeaderName(headers[k]) in names && forall j | 0 <= j < k :: HeaderName(headers[j]) !in names
    ensures k == -1 ==> forall j | 0 <= j < |headers| :: HeaderName(headers[j]) !in names
  {
    if headers == [] then -1
    else if HeaderName(headers[0]) in names then 0
    else
      var k := FindColumn(headers[1..], names);
      assert forall j | 1 <= j < |headers| :: headers[j] == headers[1..][j - 1];
      if k == -1 then -1 else k + 1
  }

  /** Row `row` became a point; the other columns are opaque here. */
  datatype Point = Point(row: nat, lat: real, lng: real)

  datatype RowError = TooShort | NoSpatialColumn | ColumnMismatch(row: nat) | InvalidLatLng(row: nat)

  datatype Outcome = Feature(point: Point) | Problem(error: RowError) | Dropped

  type Number = string -> Option<real>

  /** What data row `i` turns into; a row with only a geometry column yields nothing at all. */
  function RowOutcome(rows: seq<seq<string>>, i: nat, number: Number): Outcome
    requires 0 < i < |rows|
  {
    var headers, values := rows[0], rows[i];
    var lat, lng := FindColumn(headers, LAT_COLUMNS), FindColumn(headers, LNG_COLUMNS);
    if |values| != |headers| then Problem(ColumnMismatch(i + 1))
    else if lat >= 0 && lng >= 0 then
      var x, y := number(values[lat]), number(values[lng]);
      if x.None? || y.None? then Problem(InvalidLatLng(i + 1)) else Feature(Point(i, x.value, y.value))
    else Dropped
  }

  /** The outcomes of all data rows, in file order. */
  function Outcomes(rows: seq<seq<string>>, number: Number): seq<Outcome>
    requires rows != []
  {
    seq(|rows| - 1, i requires 0 <= i < |rows| - 1 => RowOutcome(rows, i + 1, number))
  }

  function Points(outs: seq<Outcome>): seq<Point> {
    if outs == [] then []
    else
      var n := |outs| - 1;
      Points(outs[..n]) + if outs[n].Feature? then [outs[n].point] else []
  }

  function Problems(outs: seq<Outcome>): seq<RowError> {
    if outs == [] then []
    else
      var n := |outs| - 1;
      Problems(outs[..n]) + if outs[n].Problem? then [outs[n].error] else []
  }

  lemma RowAdds(rows: seq<seq<string>>, number: Number, i: nat)
    requires 0 < i < |rows|
    ensures var outs, o := Outcomes(rows, number), RowOutcome(rows, i, number);
            && Points(outs[..i]) == Points(outs[..i - 1]) + (if o.Feature? then [o.point] else [])
            && Problems(outs[..i]) == Problems(outs[..i - 1]) + (if o.Problem? then [o.error] else [])
  {
    var outs := Outcomes(rows, number);
    assert outs[i - 1] == RowOutcome(rows, i, number);
    assert outs[..i][..i - 1] == outs[..i - 1];
  }

  predicate HasSpatialColumn(headers: seq<string>) {
    FindColumn(headers, LAT_COLUMNS) >= 0 || FindColumn(headers, WKT_COLUMNS) >= 0
  }

  predicate HasLatAndLng(headers: seq<string>) {
    FindColumn(headers, LAT_COLUMNS) >= 0 && FindColumn(headers, LNG_COLUMNS) >= 0
  }

  /** What an import reports: a short file, a file without spatial columns, or the points and errors of
      all its data rows. */
  function Imported(content: string, number: Number): (seq<Point>, seq<RowError>) {
    var rows := ReadRows(content);
    if |rows| < 2 then ([], [TooShort])
    else if !HasSpatialColumn(rows[0]) then ([], [NoSpatialColumn])
    else (Points(Outcomes(rows, number)), Problems(Outcomes(rows, number)))
  }

  /** `number` is parseFloat, `None` for NaN. */
  method Parse(content: string, number: Number) returns (features: seq<Point>, errors: seq<RowError>)
    ensures (features, errors) == Imported(content, number)
  {
    features, errors := [], [];
    var lines := NonBlank(SplitLines(content, ""));
    if |lines| < 2 {
      errors := [TooShort];
      return;
    }
    var headers := Csv.ParseCsvRow(lines[0]);
    assert headers == ScanAll(lines)[0];
    if FindColumn(headers, LAT_COLUMNS) == -1 && FindColumn(headers, WKT_COLUMNS) == -1 {
      errors := [NoSpatialColumn];
      return;
    }
    features, errors := ParseRows(headers, lines, number);
  }

  /** The row loop of `parse`. */
  method ParseRows(headers: seq<string>, lines: seq<string>, number: Number)
    returns (features: seq<Point>, errors: seq<RowError>)
    requires |lines| >= 2 && headers == ScanAll(lines)[0]
    ensures features == Points(Outcomes(ScanAll(lines), number))
    ensures errors == Problems(Outcomes(ScanAll(lines), number))
  {
    features, errors := [], [];
    var latIndex := FindColumn(headers, LAT_COLUMNS);
    var lngIndex := FindColumn(headers, LNG_COLUMNS);
    ghost var rows := ScanAll(lines);
    ghost var outs := Outcomes(rows, number);
    var i := 1;
    while i < |lines|
      invariant 1 <= i <= |lines|
      invariant features == Points(outs[..i - 1]) && errors == Problems(outs[..i - 1])
    {
      RowAdds(rows, number, i);
      var values := Csv.ParseCsvRow(lines[i]);
      assert values == rows[i];
      if |values| != |headers| {
        errors := errors + [ColumnMismatch(i + 1)];
      } else if latIndex >= 0 && lngIndex >= 0 {
        var lat := number(values[latIndex]);
        var lng := number(values[lngIndex]);
        if lat.None? || lng.None? {
          errors := errors + [InvalidLatLng(i + 1)];
        } else {
          features := features + [Point(i, lat.value, lng.value)];
        }
      }
      i := i + 1;
    }
    assert outs[..|lines| - 1] == outs;
  }

  function RowOf(e: RowError): nat {
    match e
    case ColumnMismatch(row) => row
    case InvalidLatLng(row) => row
    case _ => 0
  }

  /** Points carry the index of their line, errors the number of their row counting from 1. */
  ghost predicate Numbered(outs: seq<Outcome>) {
    forall i | 0 <= i < |outs| ::
      && (outs[i].Feature? ==> outs[i].point.row == i + 1)
      && (outs[i].Problem? ==> RowOf(outs[i].error) == i + 2)
  }

  lemma OutcomesNumbered(rows: seq<seq<string>>, number: Number)
    requires rows != []
    ensures Numbered(Outcomes(rows, number))
  {
  }

  /** The point is what data row `p.row` turned into. */
  ghost predicate PointOk(outs: seq<Outcome>, p: Point) {
    0 < p.row <= |outs| && outs[p.row - 1] == Feature(p)
  }

  /** The error is what the row that it numbers, counting the header as 1, turned into. */
  ghost predicate ErrorOk(outs: seq<Outcome>, e: RowError) {
    1 < RowOf(e) <= |outs| + 1 && outs[RowOf(e) - 2] == Problem(e)
  }

  lemma {:induction false} PointsInOrder(outs: seq<Outcome>)
    requires Numbered(outs)
    ensures forall p | p in Points(outs) :: PointOk(outs, p)
    ensures forall a, b | 0 <= a < b < |Points(outs)| :: Points(outs)[a].row < Points(outs)[b].row
    decreases |outs|
  {
    if outs != [] {
      var n := |outs| - 1;
      var front, qs := outs[..n], Points(outs[..n]);
      assert forall i | 0 <= i < n :: front[i] == outs[i];
      PointsInOrder(front);
      forall p | p in Points(outs) ensures PointOk(outs, p) && (p in qs ==> p.row <= n) {
        if p in qs {
          assert PointOk(front, p);
        }
      }
      forall a, b | 0 <= a < b < |Points(outs)| ensures Points(outs)[a].row < Points(outs)[b].row {
        assert Points(outs)[a] == qs[a] && qs[a] in qs;
      }
    }
  }

  lemma {:induction false} ProblemsInOrder(outs: seq<Outcome>)
    requires Numbered(outs)
    ensures forall e | e in Problems(outs) :: ErrorOk(outs, e)
    ensures forall a, b | 0 <= a < b < |Problems(outs)| :: RowOf(Problems(outs)[a]) < RowOf(Problems(outs)[b])
    decreases |outs|
  {
    if outs != [] {
      var n := |outs| - 1;
      var front, fs := outs[..n], Problems(outs[..n]);
      assert forall i | 0 <= i < n :: front[i] == outs[i];
      ProblemsInOrder(front);
      forall e | e in Problems(outs) ensures ErrorOk(outs, e) && (e in fs ==> RowOf(e) <= n + 1) {
        if e in fs {
          assert ErrorOk(front, e);
        }
      }
      forall a, b | 0 <= a < b < |Problems(outs)| ensures RowOf(Problems(outs)[a]) < RowOf(Problems(outs)[b]) {
        assert Problems(outs)[a] == fs[a] && fs[a] in fs;
      }
    }
  }

  lemma {:induction false} ResultsCount(outs: seq<Outcome>)
    ensures |Points(outs)| + |Problems(outs)| <= |outs|
    ensures |Points(outs)| + |Problems(outs)| == |outs| <==> forall i | 0 <= i < |outs| :: !outs[i].Dropped?
    ensures |Points(outs)| + |Problems(outs)| == 0 <==> forall i | 0 <= i < |outs| :: outs[i].Dropped?
    decreases |outs|
  {
    if outs != [] {
      var front := outs[..|outs| - 1];
      assert forall i | 0 <= i < |front| :: front[i] == outs[i];
      ResultsCount(front);
    }
  }

  lemma DroppedExactly(rows: seq<seq<string>>, number: Number, i: nat)
    requires 0 < i < |rows|
    ensures Outcomes(rows, number)[i - 1].Dropped? <==> !HasLatAndLng(rows[0]) && |rows[i]| == |rows[0]|
  {
    assert Outcomes(rows, number)[i - 1] == RowOutcome(rows, i, number);
  }

  lemma NoneDroppedExactly(rows: seq<seq<string>>, number: Number)
    requires rows != []
    ensures (forall i | 0 <= i < |rows| - 1 :: !Outcomes(rows, number)[i].Dropped?) <==>
            HasLatAndLng(rows[0]) || forall i | 0 < i < |rows| :: |rows[i]| != |rows[0]|
    ensures (forall i | 0 <= i < |rows| - 1 :: Outcomes(rows, number)[i].Dropped?) <==>
            |rows| == 1 || (!HasLatAndLng(rows[0]) && forall i | 0 < i < |rows| :: |rows[i]| == |rows[0]|)
  {
    var outs := Outcomes(rows, number);
    forall i | 0 <= i < |rows| - 1
      ensures outs[i].Dropped? <==> !HasLatAndLng(rows[0]) && |rows[i + 1]| == |rows[0]|
    {
      DroppedExactly(rows, number, i + 1);
    }
    if forall i | 0 <= i < |rows| - 1 :: !outs[i].Dropped? {
      forall i | 0 < i < |rows| ensures HasLatAndLng(rows[0]) || |rows[i]| != |rows[0]| {
        assert !outs[i - 1].Dropped?;
      }
    }
    if forall i | 0 <= i < |rows| - 1 :: outs[i].Dropped? {
      forall i | 0 < i < |rows| ensures !HasLatAndLng(rows[0]) && |rows[i]| == |rows[0]| {
        assert outs[i - 1].Dropped?;
      }
      assert |rows| > 1 ==> outs[0].Dropped?;
    }
  }

  /** The point carries the numbers in the latitude and longitude cells of the row it names. */
  ghost predicate PointRead(rows: seq<seq<string>>, number: Number, p: Point) {
    && 0 < p.row < |rows| && |rows[p.row]| == |rows[0]|
    && exists lat, lng | 0 <= lat < |rows[0]| && 0 <= lng < |rows[0]| ::
         && FirstNamed(rows[0], lat, {"lat", "latitude", "lat_deg", "y"})
         && FirstNamed(rows[0], lng, {"lng", "lon", "longitude", "long", "x"})
         && number(rows[p.row][lat]) == Some(p.lat) && number(rows[p.row][lng]) == Some(p.lng)
  }

  /** The error names a row, counting the header as 1, that has the wrong length or a coordinate cell that
      is no number. */
  ghost predicate ErrorTrue(rows: seq<seq<string>>, number: Number, e: RowError) {
    match e
    case ColumnMismatch(row) => 2 <= row <= |rows| && |rows[row - 1]| != |rows[0]|
    case InvalidLatLng(row) =>
      && 2 <= row <= |rows| && |rows[row - 1]| == |rows[0]|
      && exists lat, lng | 0 <= lat < |rows[0]| && 0 <= lng < |rows[0]| ::
           && FirstNamed(rows[0], lat, {"lat", "latitude", "lat_deg", "y"})
           && FirstNamed(rows[0], lng, {"lng", "lon", "longitude", "long", "x"})
           && (number(rows[row - 1][lat]).None? || number(rows[row - 1][lng]).None?)
    case _ => false
  }

  /** Header `k` is the first with one of the names. */
  ghost predicate FirstNamed(headers: seq<string>, k: int, names: set<string>) {
    && 0 <= k < |headers| && HeaderName(headers[k]) in names
    && forall j | 0 <= j < k :: HeaderName(headers[j]) !in names
  }

  lemma FoundIsFirst(headers: seq<string>)
    ensures var lat, lng := FindColumn(headers, LAT_COLUMNS), FindColumn(headers, LNG_COLUMNS);
            && (lat >= 0 ==> FirstNamed(headers, lat, {"lat", "latitude", "lat_deg", "y"}))
            && (lng >= 0 ==> FirstNamed(headers, lng, {"lng", "lon", "longitude", "long", "x"}))
  {
  }

  lemma RowsRead(rows: seq<seq<string>>, number: Number)
    requires rows != []
    ensures forall p | PointOk(Outcomes(rows, number), p) :: PointRead(rows, number, p)
    ensures forall e | ErrorOk(Outcomes(rows, number), e) :: ErrorTrue(rows, number, e)
  {
    var outs := Outcomes(rows, number);
    var lat, lng := FindColumn(rows[0], LAT_COLUMNS), FindColumn(rows[0], LNG_COLUMNS);
    FoundIsFirst(rows[0]);
    forall p | PointOk(outs, p) ensures PointRead(rows, number, p) {
      assert RowOutcome(rows, p.row, number) == Feature(p);
      assert number(rows[p.row][lat]) == Some(p.lat) && number(rows[p.row][lng]) == Some(p.lng);
    }
    forall e | ErrorOk(outs, e) ensures ErrorTrue(rows, number, e) {
      assert RowOutcome(rows, RowOf(e) - 1, number) == Problem(e);
    }
  }

  /** Some header has one of the names. */
  ghost predicate SomeNamed(headers: seq<string>, names: set<string>) {
    exists k :: FirstNamed(headers, k, names)
  }

  /** An import reports a short file if there are fewer than two rows, and missing spatial columns if there
      is neither a latitude nor a geometry header; otherwise it reports on the data rows. */
  lemma RefusedExactly(content: string, number: Number)
    ensures var (ps, es), rows := Imported(content, number), ReadRows(content);
            && (es == [TooShort] <==> |rows| < 2)
            && (es == [NoSpatialColumn] <==>
                  |rows| >= 2 && !SomeNamed(rows[0], {"lat", "latitude", "lat_deg", "y"})
                              && !SomeNamed(rows[0], {"wkt", "geometry", "geom", "the_geom"}))
            && (TooShort in es || NoSpatialColumn in es ==> ps == [] && |es| == 1)
  {
    var rows := ReadRows(content);
    var (ps, es) := Imported(content, number);
    assert [TooShort][0] != [NoSpatialColumn][0];
    if |rows| >= 2 {
      SpatialExactly(rows[0]);
      NoFileErrors(rows, number);
      assert es == [TooShort] ==> TooShort in es;
      assert es == [NoSpatialColumn] ==> NoSpatialColumn in es;
    }
  }

  lemma NoFileErrors(rows: seq<seq<string>>, number: Number)
    requires rows != []
    ensures TooShort !in Problems(Outcomes(rows, number)) && NoSpatialColumn !in Problems(Outcomes(rows, number))
  {
    var outs := Outcomes(rows, number);
    OutcomesNumbered(rows, number);
    ProblemsInOrder(outs);
    forall e | e in Problems(outs) ensures !e.TooShort? && !e.NoSpatialColumn? {
      assert ErrorOk(outs, e);
    }
  }

  lemma SpatialExactly(headers: seq<string>)
    ensures HasSpatialColumn(headers) <==>
            || SomeNamed(headers, {"lat", "latitude", "lat_deg", "y"})
            || SomeNamed(headers, {"wkt", "geometry", "geom", "the_geom"})
  {
    var lat, wkt := FindColumn(headers, LAT_COLUMNS), FindColumn(headers, WKT_COLUMNS);
    if lat >= 0 {
      assert FirstNamed(headers, lat, {"lat", "latitude", "lat_deg", "y"});
    }
    if wkt >= 0 {
      assert FirstNamed(headers, wkt, {"wkt", "geometry", "geom", "the_geom"});
    }
  }

  lemma LowerOneByOne(h: string)
    ensures |LowerCase(h)| == |h|
    ensures forall i | 0 <= i < |h| ::
              LowerCase(h)[i] == if 'A' <= h[i] <= 'Z' then h[i] - 'A' + 'a' else h[i]
  {
  }

  lemma SpacesHaveNoCase(s: string)
    requires forall c | c in s :: Space(c)
    ensures LowerCase(s) == s
  {
    forall i | 0 <= i < |s| ensures LowerCase(s)[i] == s[i] {
      assert s[i] in s;
    }
  }

  /** Header names are compared without regard to case or surrounding white space. */
  lemma HeaderNameIgnores(before: string, name: string, upper: string, after: string)
    requires name != "" && !Space(name[0]) && !Space(name[|name| - 1]) && LowerCase(name) == name
    requires LowerCase(upper) == name && (forall c | c in before + after :: Space(c))
    ensures HeaderName(before + upper + after) == name
  {
    var h := LowerCase(before + upper + after);
    assert forall c | c in before :: c in before + after;
    assert forall c | c in after :: c in before + after;
    SpacesHaveNoCase(before);
    SpacesHaveNoCase(after);
    assert h == LowerCase(before) + LowerCase(upper) + LowerCase(after);
    TrimStrips(before, name, after);
  }

  lemma {:induction false} TrimStrips(before: string, name: string, after: string)
    requires name != "" && !Space(name[0]) && !Space(name[|name| - 1])
    requires (forall c | c in before :: Space(c)) && (forall c | c in after :: Space(c))
    ensures Trim(before + name + after) == name
    decreases |before| + |after|
  {
    var s := before + name + after;
    if before != "" {
      assert s[0] == before[0] && s[1..] == before[1..] + name + after;
      TrimStrips(before[1..], name, after);
    } else if after != "" {
      assert s[0] == name[0] && s[|s| - 1] == after[|after| - 1];
      assert s[..|s| - 1] == before + name + after[..|after| - 1];
      TrimStrips(before, name, after[..|after| - 1]);
    } else {
      assert s == name;
    }
  }

  /** The data rows of a file: points and errors come in row order, each is what the row it names
      turned into, with the numbers in its coordinate cells, and together they count the data rows exactly
      when both coordinate columns were found or every row had the wrong length. */
  lemma RowsAccountedForExactly(rows: seq<seq<string>>, number: Number)
    requires rows != []
    ensures var outs := Outcomes(rows, number);
            var ps, es := Points(outs), Problems(outs);
            && (forall p | p in ps :: PointOk(outs, p) && PointRead(rows, number, p))
            && (forall a, b | 0 <= a < b < |ps| :: ps[a].row < ps[b].row)
            && (forall e | e in es :: ErrorOk(outs, e) && ErrorTrue(rows, number, e))
            && (forall a, b | 0 <= a < b < |es| :: RowOf(es[a]) < RowOf(es[b]))
            && (|ps| + |es| == |rows| - 1 <==>
                  HasLatAndLng(rows[0]) || forall i | 0 < i < |rows| :: |rows[i]| != |rows[0]|)
  {
    var outs := Outcomes(rows, number);
    OutcomesNumbered(rows, number);
    PointsInOrder(outs);
    ProblemsInOrder(outs);
    ResultsCount(outs);
    NoneDroppedExactly(rows, number);
    RowsRead(rows, number);
  }

  /** An import reports nothing at all exactly when the file has data rows, all of the right length, and
      spatial columns of which no latitude and longitude make a pair. */
  lemma NothingReportedExactly(content: string, number: Number)
    ensures var rows := ReadRows(content);
            Imported(content, number) == ([], []) <==>
              && |rows| >= 2 && HasSpatialColumn(rows[0]) && !HasLatAndLng(rows[0])
              && forall i | 0 < i < |rows| :: |rows[i]| == |rows[0]|
  {
    var rows := ReadRows(content);
    if |rows| >= 2 {
      ResultsCount(Outcomes(rows, number));
      NoneDroppedExactly(rows, number);
    }
  }

  lemma GeometryHeader()
    ensures FindColumn(["wkt"], LAT_COLUMNS) == -1 && FindColumn(["wkt"], WKT_COLUMNS) == 0
  {
    assert LowerCase("wkt") == "wkt";
    assert HeaderName("wkt") == Trim("wkt") == "wkt";
    assert HeaderName(["wkt"][0]) in WKT_COLUMNS;
  }

  /** The row of a file with a geometry column only vanishes without a trace, whatever it holds. */
  lemma GeometryOnlyRowVanishes(geometry: string, number: Number)
    requires '\n' !in geometry
    ensures var content := EncodeFile([["wkt"], [geometry]], [[true], [true]], false);
            && ReadRows(content) == [["wkt"], [geometry]]
            && Imported(content, number) == ([], [])
  {
    var rows, quotes := [["wkt"], [geometry]], [[true], [true]];
    FileRoundTripExactly(rows, quotes, false);
    GeometryHeader();
    NothingReportedExactly(EncodeFile(rows, quotes, false), number);
  }

  /** A table written by the standard, with both coordinate columns and no line feeds or blank rows, is
      imported row by row: every data row becomes one point or one error. */
  lemma WrittenTableIsImported(rows: seq<seq<string>>, quotes: seq<seq<bool>>, finalBreak: bool, number: Number)
    requires IsTable(rows, quotes) && |rows| >= 2 && HasLatAndLng(rows[0])
    requires NoBreakInside(rows) && forall i | 0 <= i < |rows| :: !BlankRow(rows[i], quotes[i])
    ensures var (ps, es) := Imported(EncodeFile(rows, quotes, finalBreak), number);
            && |ps| + |es| == |rows| - 1
            && (forall p | p in ps :: PointRead(rows, number, p))
            && (forall e | e in es :: ErrorTrue(rows, number, e))
  {
    FileRoundTripExactly(rows, quotes, finalBreak);
    RowsAccountedForExactly(rows, number);
  }
}
