/** The web dashboard (`main.py`) over the table loaded at start-up: the
    search page with its warning and population-versus-area scatter plot, and
    the page of one city. Routing, templates and the drawing of the plot are
    outside the model; the plot is the list of points it would draw. */
module Dashboard {
  import opened Wrappers
  import opened Text
  import opened Dataset
  import opened Sequences

  /** The query parameters `q` and `searched` of a request to `/`. */
  datatype Request = Request(q: Option<string>, searched: Option<string>)

  /** One `plt.scatter` call: area on x, population on y, the city name as label,
      and the index of its colour in the palette. */
  datatype Point = Point(area: real, population: int, name: string, colour: nat)

  /** The drawn plot: its points in drawing order and the legend's column count. */
  datatype Plot = Plot(points: seq<Point>, legendColumns: nat)

  /** What the search page is rendered with. */
  datatype Page = Page(records: seq<CityRecord>, warning: Option<string>, query: string,
                       plot: Option<Plot>)

  /** `plt.cm.tab20.colors` has twenty colours. */
  const PALETTE_SIZE := 20
  const MAX_LEGEND_COLUMNS := 4

  // ---------------------------------------------------------------------------
  // Search: `df[df["City"].str.lower().str.contains(query.lower())]`.

  /** The empty query matches every row; a match is never longer than the
      name; the exact name (up to case) always matches. */
  predicate MatchesQuery(row: CityRecord, query: string): (r: bool)
    ensures query == [] ==> r
    ensures r ==> |query| <= |row.city|
    ensures Lower(row.city) == Lower(query) ==> r
  {
    Contains(Lower(row.city), Lower(query))
  }

  /** The rows whose lower-cased name contains the lower-cased query. */
  function Matching(table: seq<CityRecord>, query: string): (r: seq<CityRecord>)
    ensures forall i :: 0 <= i < |r| ==> r[i] in table && MatchesQuery(r[i], query)
    ensures forall i :: 0 <= i < |table| && MatchesQuery(table[i], query) ==> table[i] in r
  {
    Filter(table, row => MatchesQuery(row, query))
  }

  /** The search returns every matching row exactly as often as the table
      holds it (no duplicates, no omissions), in table order. */
  lemma SearchResults(table: seq<CityRecord>, query: string, row: CityRecord)
    ensures multiset(Matching(table, query))[row]
         == if MatchesQuery(row, query) then multiset(table)[row] else 0
    ensures forall k :: 0 <= k <= |table| ==>
      Matching(table, query) == Matching(table[..k], query) + Matching(table[k..], query)
  {
    FilterCount(table, row => MatchesQuery(row, query), row);
    forall k | 0 <= k <= |table|
      ensures Matching(table, query) == Matching(table[..k], query) + Matching(table[k..], query)
    {
      assert table == table[..k] + table[k..];
      FilterConcat(table[..k], table[k..], row => MatchesQuery(row, query));
    }
  }

  /** Matching ignores letter case in both the name and the query. */
  lemma SearchIgnoresCase(row: CityRecord, query: string)
    ensures MatchesQuery(row, query) == MatchesQuery(row.(city := Lower(row.city)), Lower(query))
  {
    LowerIdempotent(row.city);
    LowerIdempotent(query);
  }

  // ---------------------------------------------------------------------------
  // population_area_plot

  /** The row has both values the plot needs (`dropna(subset=[...])`). */
  predicate Plottable(row: CityRecord) {
    row.population.Some? && row.areaKm2.Some?
  }

  /** The rows with both values, in order, none dropped and none added. */
  function PlotData(data: seq<CityRecord>): (r: seq<CityRecord>)
    ensures |r| <= |data|
    ensures forall i :: 0 <= i < |r| ==> r[i] in data && Plottable(r[i])
    ensures forall i :: 0 <= i < |data| && Plottable(data[i]) ==> data[i] in r
  {
    Filter(data, Plottable)
  }

  /** `plot` draws the plottable rows of `data`, in order, the i-th in palette
      colour `i mod 20`, with a legend of at most four columns. */
  ghost predicate IsPlotOf(plot: Plot, data: seq<CityRecord>) {
    var rows := PlotData(data);
    |plot.points| == |rows|
    && plot.legendColumns == (if |rows| < MAX_LEGEND_COLUMNS then |rows| else MAX_LEGEND_COLUMNS)
    && forall i :: 0 <= i < |rows| ==>
         plot.points[i] == Point(rows[i].areaKm2.value, rows[i].population.value, rows[i].city,
                                 i % PALETTE_SIZE)
  }

  /** No plot when no row has both population and area; otherwise the plot
      of the plottable rows. */
  method PopulationAreaPlot(data: seq<CityRecord>) returns (plot: Option<Plot>)
    ensures plot.None? <==> forall i :: 0 <= i < |data| ==> !Plottable(data[i])
    ensures plot.Some? ==> IsPlotOf(plot.value, data)
  {
    var plotData := PlotData(data);
    FilterEmpty(data, Plottable);
    if plotData == [] {
      return None;
    }
    var points: seq<Point> := [];
    var i := 0;
    while i < |plotData|
      invariant 0 <= i <= |plotData|
      invariant |points| == i
      invariant forall k :: 0 <= k < i ==>
        points[k] == Point(plotData[k].areaKm2.value, plotData[k].population.value,
                           plotData[k].city, k % PALETTE_SIZE)
    {
      var row := plotData[i];
      points := points + [Point(row.areaKm2.value, row.population.value, row.city, i % PALETTE_SIZE)];
      i := i + 1;
    }
    var columns := if |plotData| < MAX_LEGEND_COLUMNS then |plotData| else MAX_LEGEND_COLUMNS;
    plot := Some(Plot(points, columns));
  }

  // ---------------------------------------------------------------------------
  // The search page.

  /** `dashboard()`: the stripped query selects the matching rows; an empty
      query selects none. A non-empty query without matches, or an empty one
      sent from the search form, gives a warning. A plot is drawn only for
      a non-empty selection with a plottable row. */
  method Search(table: seq<CityRecord>, request: Request) returns (page: Page)
    ensures page.query == Strip(request.q.GetOr(""))
    ensures page.query != "" ==> page.records == Matching(table, page.query)
    ensures page.query == "" ==> page.records == []
    ensures page.query != "" && page.records == [] ==>
      page.warning == Some("No data found for '" + page.query + "'.")
    ensures page.query == "" && request.searched == Some("1") ==>
      page.warning == Some("Please enter a city name.")
    ensures page.warning.Some? ==>
      page.records == [] && (page.query != "" || request.searched == Some("1"))
    ensures page.plot.None? <==> forall i :: 0 <= i < |page.records| ==> !Plottable(page.records[i])
    ensures page.plot.Some? ==> page.records != [] && IsPlotOf(page.plot.value, page.records)
  {
    var query := Strip(request.q.GetOr(""));
    var warning: Option<string> := None;
    var filtered: seq<CityRecord> := [];
    if query != "" {
      filtered := Matching(table, query);
      if filtered == [] {
        warning := Some("No data found for '" + query + "'.");
      }
    } else if request.searched == Some("1") {
      warning := Some("Please enter a city name.");
    }
    var plot: Option<Plot> := None;
    if filtered != [] {
      plot := PopulationAreaPlot(filtered);
    }
    page := Page(filtered, warning, query, plot);
  }

  // ---------------------------------------------------------------------------
  // The city page: `df[df["City"].str.lower() == city_name.lower()]`, first row.

  datatype CityPage = CityFound(row: CityRecord) | NotFound(message: string, status: int)

  /** The city page's test is the search's test restricted to names of the
      same length: a search hit of full length is the city. */
  predicate NameMatches(row: CityRecord, name: string): (r: bool)
    ensures r <==> |row.city| == |name| && MatchesQuery(row, name)
    ensures row.city == name ==> r
  {
    Lower(row.city) == Lower(name)
  }

  /** The first row whose name equals `name` up to letter case, or the
      message "City not found" with status 404 when there is none. */
  function CityView(table: seq<CityRecord>, name: string): (r: CityPage)
    ensures r.NotFound? <==> forall i :: 0 <= i < |table| ==> !NameMatches(table[i], name)
    ensures r.NotFound? ==> r == NotFound("City not found", 404)
    ensures r.CityFound? ==> exists i ::
      (0 <= i < |table| && table[i] == r.row && NameMatches(table[i], name)
       && forall j :: 0 <= j < i ==> !NameMatches(table[j], name))
  {
    var keep := row => NameMatches(row, name);
    var city := Filter(table, keep);
    FilterEmpty(table, keep);
    if city == [] then NotFound("City not found", 404)
    else
      FilterFirst(table, keep);
      CityFound(city[0])
  }
}
