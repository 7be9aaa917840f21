/**
 The movie dashboard: the table of movies with its derived presentation
 columns, the filter the controls apply to it, and the redraw that turns the
 selection into scatter points (with box-office-dependent marker sizes) and
 the values fed to the four histograms.
 */
module MoviesApp {
  import opened PyStr
  import opened RevenueFormat
  import opened HelperFunctions

  const MinPointSize: real := 10.0
  const MaxPointSize: real := 100.0

  /** One movie, with missing values already replaced by 0. Text columns that
      may be missing hold a `Cell`. */
  datatype Movie = Movie(
    title: string,
    genre: Cell,
    year: int,
    reviews: int,
    boxOffice: real,
    meter: real,
    numericRating: real,
    runtime: int,
    oscars: int,
    director: Cell,
    cast: Cell)

  /** A table row: the movie and the columns added when the table is loaded. */
  datatype Row = Row(movie: Movie, color: string, alpha: real, revenue: string)

  /** The current values of the filter controls. */
  datatype Controls = Controls(
    minReviews: int,
    boxOfficeMillions: int,
    yearLo: int,
    yearHi: int,
    minOscars: int,
    genre: string,
    director: string,
    cast: string)

  /** The numeric columns the axis selectors can show. */
  datatype Axis = Meter | NumericRating | NumberOfReviews | BoxOfficeDollars | Length | ReleaseYear

  /** The axis selectors' labels and the column each one names. */
  const AxisMap: map<string, Axis> := map[
    "Tomato Meter" := Meter,
    "Numeric Rating" := NumericRating,
    "Number of Reviews" := NumberOfReviews,
    "Box Office (dollars)" := BoxOfficeDollars,
    "Length (minutes)" := Length,
    "Year" := ReleaseYear]

  /** The value a movie shows on an axis; the counts, the running time and
      the year are whole numbers. */
  function AxisValue(m: Movie, a: Axis): (v: real)
    ensures a == NumberOfReviews || a == Length || a == ReleaseYear ==> v.Floor as real == v
  {
    match a
    case Meter => m.meter
    case NumericRating => m.numericRating
    case NumberOfReviews => m.reviews as real
    case BoxOfficeDollars => m.boxOffice
    case Length => m.runtime as real
    case ReleaseYear => m.year as real
  }

  /** The axis map names six different columns, one per label: every axis
      can be chosen, and by exactly one label. */
  lemma AxisMapLabels()
    ensures AxisMap.Values == {Meter, NumericRating, NumberOfReviews, BoxOfficeDollars, Length, ReleaseYear}
    ensures |AxisMap.Values| == |AxisMap| == 6
  {
    assert AxisMap["Tomato Meter"] == Meter;
    assert AxisMap["Numeric Rating"] == NumericRating;
    assert AxisMap["Number of Reviews"] == NumberOfReviews;
    assert AxisMap["Box Office (dollars)"] == BoxOfficeDollars;
    assert AxisMap["Length (minutes)"] == Length;
    assert AxisMap["Year"] == ReleaseYear;
  }

  // ---------------------------------------------------------------------
  // Derived columns

  /** The columns added at load time: a highlight colour and opacity keyed on
      whether the movie won an Oscar, and the box office as a display string.
      The display string parses back to the whole-dollar box office. */
  function Derive(m: Movie): (r: Row)
    ensures r.movie == m
    ensures (r.color == "orange") == (m.oscars > 0)
    ensures r.color == "orange" || r.color == "grey"
    ensures r.alpha == if r.color == "orange" then 0.9 else 0.25
    ensures ParseRevenue(r.revenue) == Some(Trunc(m.boxOffice) as real)
  {
    RevenueRoundTrip(Trunc(m.boxOffice));
    Row(m,
        if m.oscars > 0 then "orange" else "grey",
        if m.oscars > 0 then 0.9 else 0.25,
        FormatThousands(Trunc(m.boxOffice)))
  }

  predicate AllDerived(rows: seq<Row>)
  {
    forall i :: 0 <= i < |rows| ==> rows[i] == Derive(rows[i].movie)
  }

  // ---------------------------------------------------------------------
  // Filtering

  /** The rows `p` accepts, in their original order (a boolean mask). */
  function Keep(rows: seq<Row>, p: Row -> bool): (kept: seq<Row>)
    ensures |kept| <= |rows|
  {
    if rows == [] then [] else (if p(rows[0]) then [rows[0]] else []) + Keep(rows[1..], p)
  }

  /** `sub` is `s` with some elements left out and the rest in order. */
  ghost predicate IsSubsequence(sub: seq<Row>, s: seq<Row>)
    decreases |s|
  {
    sub == [] ||
    (s != [] && ((sub[0] == s[0] && IsSubsequence(sub[1..], s[1..])) || IsSubsequence(sub, s[1..])))
  }

  /** A mask keeps exactly the rows it accepts, and keeps them in order. */
  lemma {:induction false} KeepProperties(rows: seq<Row>, p: Row -> bool)
    ensures forall r :: r in Keep(rows, p) <==> r in rows && p(r)
    ensures IsSubsequence(Keep(rows, p), rows)
    decreases |rows|
  {
    if rows != [] {
      KeepProperties(rows[1..], p);
      assert rows == [rows[0]] + rows[1..];
      if p(rows[0]) {
        var kept := Keep(rows, p);
        assert kept == [rows[0]] + Keep(rows[1..], p);
        assert kept[0] == rows[0] && kept[1..] == Keep(rows[1..], p);
      } else {
        assert Keep(rows, p) == Keep(rows[1..], p);
      }
    }
  }

  /** Applying two masks one after the other is applying their conjunction. */
  lemma {:induction false} KeepKeep(rows: seq<Row>, p: Row -> bool, q: Row -> bool, pq: Row -> bool)
    requires forall r :: pq(r) == (p(r) && q(r))
    ensures Keep(Keep(rows, p), q) == Keep(rows, pq)
    decreases |rows|
  {
    if rows != [] {
      KeepKeep(rows[1..], p, q, pq);
      var kept := Keep(rows, p);
      if p(rows[0]) {
        assert kept == [rows[0]] + Keep(rows[1..], p);
        assert kept[0] == rows[0] && kept[1..] == Keep(rows[1..], p);
        assert Keep(kept, q) == (if q(rows[0]) then [rows[0]] else []) + Keep(kept[1..], q);
      } else {
        assert kept == Keep(rows[1..], p);
      }
    }
  }

  /** The numeric threshold and range tests. */
  predicate MeetsThresholds(m: Movie, c: Controls)
  {
    m.reviews >= c.minReviews &&
    m.boxOffice >= c.boxOfficeMillions as real * 1000000.0 &&
    m.year >= c.yearLo &&
    m.year <= c.yearHi &&
    m.oscars >= c.minOscars
  }

  /** The three text columns the selection can filter on, in the order their
      masks are applied. */
  datatype TextColumn = GenreColumn | DirectorColumn | CastColumn

  function TextCell(m: Movie, col: TextColumn): Cell
  {
    match col
    case GenreColumn => m.genre
    case DirectorColumn => m.director
    case CastColumn => m.cast
  }

  /** The text a column's mask looks for: the chosen genre, or the director
      or cast input trimmed of whitespace. */
  function Needle(c: Controls, col: TextColumn): string
  {
    match col
    case GenreColumn => c.genre
    case DirectorColumn => Strip(c.director, IsSpace)
    case CastColumn => Strip(c.cast, IsSpace)
  }

  /** Whether the mask on `col` is applied: a genre of "All" and a blank
      director or cast input impose nothing. */
  predicate Active(c: Controls, col: TextColumn)
  {
    if col == GenreColumn then c.genre != "All" else Needle(c, col) != ""
  }

  /** `str.contains(...) == True` on a cell: a non-string cell gives NaN,
      which is not `True`. */
  predicate CellContains(c: Cell, needle: string)
  {
    c.Text? && Contains(c.s, needle)
  }

  /** The test of the mask on `col`; every movie passes an inactive one. */
  predicate PassesText(m: Movie, c: Controls, col: TextColumn)
  {
    Active(c, col) ==> CellContains(TextCell(m, col), Needle(c, col))
  }

  /** Every test the controls impose, at once. */
  predicate Admits(m: Movie, c: Controls)
  {
    MeetsThresholds(m, c) &&
    PassesText(m, c, GenreColumn) && PassesText(m, c, DirectorColumn) && PassesText(m, c, CastColumn)
  }

  /** The tests a movie has passed when it reaches the mask on `col`. */
  predicate AdmitsBefore(m: Movie, c: Controls, col: TextColumn)
  {
    MeetsThresholds(m, c) &&
    (col != GenreColumn ==> PassesText(m, c, GenreColumn)) &&
    (col == CastColumn ==> PassesText(m, c, DirectorColumn))
  }

  /** The rows of the table that reach the mask on `col`. */
  function Reaching(movies: seq<Row>, c: Controls, col: TextColumn): seq<Row>
  {
    Keep(movies, (r: Row) => AdmitsBefore(r.movie, c, col))
  }

  /** Some row holds a string in `col`. */
  predicate HasText(rows: seq<Row>, col: TextColumn)
  {
    exists i :: 0 <= i < |rows| && TextCell(rows[i].movie, col).Text?
  }

  /** The mask on `col` raises: it is applied, some rows reach it, and none
      of them holds a string in that column. */
  predicate Refuses(movies: seq<Row>, c: Controls, col: TextColumn)
  {
    Active(c, col) && Reaching(movies, c, col) != [] && !HasText(Reaching(movies, c, col), col)
  }

  /** What `select_movies` ends with: the selected rows, or the text column
      whose `.str` accessor raised `AttributeError`. */
  datatype Selection = Selected(rows: seq<Row>) | NotText(column: TextColumn)

  /** `rows[rows.<col>.str.contains(needle) == True]`. The `.str` accessor
      refuses a column none of whose values is a string; an empty column has
      no value to refuse. */
  function TextMask(rows: seq<Row>, col: TextColumn, needle: string): (s: Selection)
    ensures s.NotText? ==> s.column == col && rows != []
    ensures s.Selected? ==> |s.rows| <= |rows|
    ensures s.Selected? ==>
      forall r :: r in s.rows ==> TextCell(r.movie, col).Text? && Contains(TextCell(r.movie, col).s, needle)
  {
    if rows != [] && !HasText(rows, col) then NotText(col)
    else
      var p := (r: Row) => CellContains(TextCell(r.movie, col), needle);
      KeepProperties(rows, p);
      Selected(Keep(rows, p))
  }

  /** `select_movies`: the numeric mask, then the mask on genre, director and
      cast in turn, each only when its control is active. */
  function SelectMovies(movies: seq<Row>, c: Controls): (sel: Selection)
    ensures sel.Selected? ==> |sel.rows| <= |movies|
    ensures sel.NotText? ==> Active(c, sel.column)
  {
    var genreVal := c.genre;
    var directorVal := Strip(c.director, IsSpace);
    var castVal := Strip(c.cast, IsSpace);
    var selected := Keep(movies, (r: Row) => MeetsThresholds(r.movie, c));
    var byGenre := if genreVal != "All" then TextMask(selected, GenreColumn, genreVal) else Selected(selected);
    if byGenre.NotText? then byGenre
    else
      var byDirector := if directorVal != "" then TextMask(byGenre.rows, DirectorColumn, directorVal) else byGenre;
      if byDirector.NotText? then byDirector
      else if castVal != "" then TextMask(byDirector.rows, CastColumn, castVal) else byDirector
  }

  lemma {:induction false} KeepSame(rows: seq<Row>, p: Row -> bool, q: Row -> bool)
    requires forall r :: p(r) == q(r)
    ensures Keep(rows, p) == Keep(rows, q)
    decreases |rows|
  {
    if rows != [] {
      KeepSame(rows[1..], p, q);
    }
  }

  /** One mask of `select_movies`: on the rows passing the tests `before`, the
      mask on `col` raises exactly when it refuses them, and otherwise keeps
      the rows passing `before` and its own test. */
  lemma MaskStep(movies: seq<Row>, c: Controls, col: TextColumn,
                 before: Row -> bool, after: Row -> bool, rows: seq<Row>)
    requires rows == Keep(movies, before)
    requires forall r :: after(r) == (before(r) && PassesText(r.movie, c, col))
    ensures var s := if Active(c, col) then TextMask(rows, col, Needle(c, col)) else Selected(rows);
      (s.NotText? <==> Active(c, col) && rows != [] && !HasText(rows, col)) &&
      (s.NotText? ==> s.column == col) &&
      (s.Selected? ==> s.rows == Keep(movies, after))
  {
    if Active(c, col) {
      KeepKeep(movies, before, (r: Row) => CellContains(TextCell(r.movie, col), Needle(c, col)), after);
    } else {
      KeepSame(movies, before, after);
    }
  }

  /** The successive masks of `select_movies` raise exactly when one of them
      refuses the rows reaching it (and then the first such mask is the one
      reported); otherwise they select exactly the rows all tests admit. */
  lemma SelectMoviesIsOneMask(movies: seq<Row>, c: Controls)
    ensures SelectMovies(movies, c).Selected? <==>
      !Refuses(movies, c, GenreColumn) && !Refuses(movies, c, DirectorColumn) && !Refuses(movies, c, CastColumn)
    ensures SelectMovies(movies, c).NotText? ==> Refuses(movies, c, SelectMovies(movies, c).column)
    ensures SelectMovies(movies, c).Selected? ==>
      SelectMovies(movies, c).rows == Keep(movies, (r: Row) => Admits(r.movie, c))
  {
    var pg: Row -> bool := (r: Row) => AdmitsBefore(r.movie, c, GenreColumn);
    var pd: Row -> bool := (r: Row) => AdmitsBefore(r.movie, c, DirectorColumn);
    var pc: Row -> bool := (r: Row) => AdmitsBefore(r.movie, c, CastColumn);
    var pa: Row -> bool := (r: Row) => Admits(r.movie, c);
    var selected := Keep(movies, (r: Row) => MeetsThresholds(r.movie, c));
    KeepSame(movies, (r: Row) => MeetsThresholds(r.movie, c), pg);
    assert selected == Reaching(movies, c, GenreColumn);
    MaskStep(movies, c, GenreColumn, pg, pd, selected);
    var byGenre := if Active(c, GenreColumn) then TextMask(selected, GenreColumn, Needle(c, GenreColumn)) else Selected(selected);
    if byGenre.Selected? {
      assert byGenre.rows == Reaching(movies, c, DirectorColumn);
      MaskStep(movies, c, DirectorColumn, pd, pc, byGenre.rows);
      var byDirector := if Active(c, DirectorColumn) then TextMask(byGenre.rows, DirectorColumn, Needle(c, DirectorColumn)) else byGenre;
      if byDirector.Selected? {
        assert byDirector.rows == Reaching(movies, c, CastColumn);
        MaskStep(movies, c, CastColumn, pc, pa, byDirector.rows);
      }
    }
  }

  /** Soundness, completeness and order: when `select_movies` returns, it
      returns the rows of the table that every active test admits, in table
      order. */
  lemma SelectMoviesCorrect(movies: seq<Row>, c: Controls)
    ensures SelectMovies(movies, c).Selected? ==>
      (forall r :: r in SelectMovies(movies, c).rows <==> r in movies && Admits(r.movie, c)) &&
      IsSubsequence(SelectMovies(movies, c).rows, movies)
  {
    SelectMoviesIsOneMask(movies, c);
    KeepProperties(movies, (r: Row) => Admits(r.movie, c));
  }

  /** The case `select_movies` cannot handle: a single movie that passes the
      numeric tests but whose genre is missing (filled with 0) makes an
      active genre mask raise. */
  lemma MissingGenreRaises(row: Row, c: Controls)
    requires MeetsThresholds(row.movie, c) && row.movie.genre.Number? && c.genre != "All"
    ensures SelectMovies([row], c) == NotText(GenreColumn)
  {
    assert Keep([row], (r: Row) => MeetsThresholds(r.movie, c)) == [row];
  }

  /** A director or cast text that trims to nothing filters nothing: the
      selection is the one an empty input gives. */
  lemma BlankTextControls(movies: seq<Row>, c: Controls)
    ensures Strip(c.director, IsSpace) == "" ==>
      SelectMovies(movies, c) == SelectMovies(movies, c.(director := ""))
    ensures Strip(c.cast, IsSpace) == "" ==>
      SelectMovies(movies, c) == SelectMovies(movies, c.(cast := ""))
  {
    assert Strip("", IsSpace) == "";
    var d, k := c.(director := ""), c.(cast := "");
    KeepSame(movies, (r: Row) => MeetsThresholds(r.movie, c), (r: Row) => MeetsThresholds(r.movie, d));
    KeepSame(movies, (r: Row) => MeetsThresholds(r.movie, c), (r: Row) => MeetsThresholds(r.movie, k));
  }

  /** When the selection succeeds, an active director or cast filter keeps
      only rows whose cell is a string containing the trimmed input. */
  lemma ActiveTextControls(movies: seq<Row>, c: Controls)
    ensures Strip(c.director, IsSpace) != "" && SelectMovies(movies, c).Selected? ==>
      forall r :: r in SelectMovies(movies, c).rows ==>
        r.movie.director.Text? && Contains(r.movie.director.s, Strip(c.director, IsSpace))
    ensures Strip(c.cast, IsSpace) != "" && SelectMovies(movies, c).Selected? ==>
      forall r :: r in SelectMovies(movies, c).rows ==>
        r.movie.cast.Text? && Contains(r.movie.cast.s, Strip(c.cast, IsSpace))
  {
    SelectMoviesCorrect(movies, c);
  }

  // ---------------------------------------------------------------------
  // Redraw

  /** `.str.replace(",", "").astype(float)` on the revenue column; `None`
      when some string is not a number (`astype` raises). */
  function ParseRevenues(rows: seq<Row>): (parsed: Option<seq<real>>)
    ensures parsed.Some? ==> |parsed.value| == |rows|
  {
    if rows == [] then Some([])
    else
      match (ParseRevenue(rows[0].revenue), ParseRevenues(rows[1..]))
      case (Some(v), Some(vs)) => Some([v] + vs)
      case _ => None
  }

  /** Rows whose columns were derived at load time always parse, to their
      whole-dollar box office. */
  lemma {:induction false} ParseDerivedRevenues(rows: seq<Row>)
    requires AllDerived(rows)
    ensures ParseRevenues(rows).Some?
    ensures forall i :: 0 <= i < |rows| ==>
      ParseRevenues(rows).value[i] == Trunc(rows[i].movie.boxOffice) as real
    decreases |rows|
  {
    if rows != [] {
      assert rows[0] == Derive(rows[0].movie);
      assert AllDerived(rows[1..]) by {
        forall i | 0 <= i < |rows[1..]| ensures rows[1..][i] == Derive(rows[1..][i].movie) {
          assert rows[1..][i] == rows[i + 1];
        }
      }
      ParseDerivedRevenues(rows[1..]);
      forall i | 0 <= i < |rows|
        ensures ParseRevenues(rows).value[i] == Trunc(rows[i].movie.boxOffice) as real
      {
        if i > 0 {
          assert rows[i] == rows[1..][i - 1];
        }
      }
    }
  }

  /** Python's `min` on a non-empty sequence. */
  function SeqMin(s: seq<real>): (m: real)
    requires s != []
    ensures m in s
    ensures forall k :: 0 <= k < |s| ==> m <= s[k]
  {
    if |s| == 1 then s[0]
    else
      var rest := SeqMin(s[1..]);
      if s[0] <= rest then s[0] else rest
  }

  /** Python's `max` on a non-empty sequence. */
  function SeqMax(s: seq<real>): (m: real)
    requires s != []
    ensures m in s
    ensures forall k :: 0 <= k < |s| ==> s[k] <= m
  {
    if |s| == 1 then s[0]
    else
      var rest := SeqMax(s[1..]);
      if rest <= s[0] then s[0] else rest
  }

  /** The marker size of each revenue, mapped from the selection's own
      revenue range onto [MinPointSize, MaxPointSize]. */
  function Sizes(revenue: seq<real>): (size: seq<real>)
    requires revenue != []
    ensures |size| == |revenue|
  {
    var minRevenue := SeqMin(revenue);
    var maxRevenue := SeqMax(revenue);
    seq(|revenue|, i requires 0 <= i < |revenue| =>
      MapPointSize(revenue[i], minRevenue, maxRevenue, MinPointSize, MaxPointSize))
  }

  /** Every marker size lies in [MinPointSize, MaxPointSize]. */
  lemma SizesInRange(revenue: seq<real>)
    requires revenue != []
    ensures forall i :: 0 <= i < |revenue| ==> MinPointSize <= Sizes(revenue)[i] <= MaxPointSize
  {
    var lo, hi := SeqMin(revenue), SeqMax(revenue);
    var size := Sizes(revenue);
    forall i | 0 <= i < |revenue|
      ensures MinPointSize <= size[i] <= MaxPointSize
    {
      assert size[i] == MapPointSize(revenue[i], lo, hi, MinPointSize, MaxPointSize);
      MapPointSizeBounds(revenue[i], lo, hi, MinPointSize, MaxPointSize);
    }
  }

  /** One scatter point: the fields the plot's data source holds per row. */
  datatype Point = Point(
    x: real, y: real, color: string, title: string, year: int,
    revenue: real, alpha: real, size: real)

  /** The scatter data of a non-empty selection whose revenues parsed. */
  function Scatter(sel: seq<Row>, revenue: seq<real>, xName: Axis, yName: Axis): (points: seq<Point>)
    requires sel != [] && |revenue| == |sel|
    ensures |points| == |sel|
  {
    var size := Sizes(revenue);
    seq(|sel|, i requires 0 <= i < |sel| =>
      Point(AxisValue(sel[i].movie, xName), AxisValue(sel[i].movie, yName),
            sel[i].color, sel[i].movie.title, sel[i].movie.year,
            revenue[i], sel[i].alpha, size[i]))
  }

  /** The values of one axis column, row by row (what a histogram bins). */
  function Column(rows: seq<Row>, a: Axis): (values: seq<real>)
    ensures |values| == |rows|
  {
    seq(|rows|, i requires 0 <= i < |rows| => AxisValue(rows[i].movie, a))
  }

  /** The rows of the second pair of histograms: more than one Oscar. */
  function OscarSubset(rows: seq<Row>): (subset: seq<Row>)
    ensures forall r :: r in subset <==> r in rows && r.movie.oscars > 1
  {
    KeepProperties(rows, (r: Row) => r.movie.oscars > 1);
    Keep(rows, (r: Row) => r.movie.oscars > 1)
  }

  /** The Oscar histograms see exactly the selected rows with two or more
      Oscars, in selection order; all of them are highlighted, although a
      highlighted row (one Oscar) need not be among them. */
  lemma OscarSubsetProperties(sel: seq<Row>)
    requires AllDerived(sel)
    ensures IsSubsequence(OscarSubset(sel), sel)
    ensures forall r :: r in OscarSubset(sel) ==> r.color == "orange" && r.alpha == 0.9
  {
    KeepProperties(sel, (r: Row) => r.movie.oscars > 1);
    forall r | r in OscarSubset(sel)
      ensures r.color == "orange" && r.alpha == 0.9
    {
      var i :| 0 <= i < |sel| && sel[i] == r;
      assert r == Derive(r.movie);
    }
  }

  /** On rows derived at load time each scatter point shows the movie's own
      highlight, its whole-dollar box office and a size in the size range. */
  lemma ScatterProperties(sel: seq<Row>, xName: Axis, yName: Axis)
    requires sel != [] && AllDerived(sel)
    ensures ParseRevenues(sel).Some?
    ensures var points := Scatter(sel, ParseRevenues(sel).value, xName, yName);
      forall i :: 0 <= i < |sel| ==>
        points[i].revenue == Trunc(sel[i].movie.boxOffice) as real &&
        (points[i].color == "orange") == (sel[i].movie.oscars > 0) &&
        points[i].x == AxisValue(sel[i].movie, xName) &&
        points[i].y == AxisValue(sel[i].movie, yName) &&
        MinPointSize <= points[i].size <= MaxPointSize
  {
    ParseDerivedRevenues(sel);
    var revenue := ParseRevenues(sel).value;
    var points := Scatter(sel, revenue, xName, yName);
    SizesInRange(revenue);
    forall i | 0 <= i < |sel|
      ensures points[i].revenue == Trunc(sel[i].movie.boxOffice) as real
      ensures (points[i].color == "orange") == (sel[i].movie.oscars > 0)
      ensures MinPointSize <= points[i].size <= MaxPointSize
    {
      assert sel[i] == Derive(sel[i].movie);
      assert points[i].size == Sizes(revenue)[i];
    }
  }

  /** The selected rows still carry the columns derived at load time. */
  lemma SelectionDerived(movies: seq<Row>, c: Controls)
    requires AllDerived(movies)
    ensures SelectMovies(movies, c).Selected? ==> AllDerived(SelectMovies(movies, c).rows)
  {
    var sel := SelectMovies(movies, c);
    if sel.Selected? {
      SelectMoviesCorrect(movies, c);
      forall i | 0 <= i < |sel.rows|
        ensures sel.rows[i] == Derive(sel.rows[i].movie)
      {
        assert sel.rows[i] in movies;
        var j :| 0 <= j < |movies| && movies[j] == sel.rows[i];
      }
    }
  }

  /** The revenue column of a selection from the loaded table always
      parses. */
  lemma SelectionParses(movies: seq<Row>, c: Controls)
    requires AllDerived(movies)
    ensures SelectMovies(movies, c).Selected? ==> ParseRevenues(SelectMovies(movies, c).rows).Some?
  {
    SelectionDerived(movies, c);
    if SelectMovies(movies, c).Selected? {
      ParseDerivedRevenues(SelectMovies(movies, c).rows);
    }
  }

  /** How a redraw ended: the buffers were replaced, or the Python code
      raised before replacing them. */
  datatype Outcome =
    | Redrawn
    | NotStrings(column: TextColumn)   // AttributeError from the .str accessor
    | UnknownAxis(axisLabel: string)   // KeyError in axis_map
    | UnparsableRevenue            // ValueError in astype(float)
    | EmptySelection               // ValueError from min() of nothing

  /** The text of the scatter figure: its two axis labels and its title. */
  datatype Figure = Figure(xAxisLabel: string, yAxisLabel: string, title: string)

  /** The plotted data: the scatter points and the values each of the four
      histograms bins (the whole selection's x and y values, then those of
      its rows with more than one Oscar). */
  datatype Buffers = Buffers(
    scatter: seq<Point>,
    histX: seq<real>,
    histY: seq<real>,
    histXOscar: seq<real>,
    histYOscar: seq<real>)

  /** The data a redraw publishes for a non-empty selection. */
  function Redraw(sel: seq<Row>, revenue: seq<real>, xName: Axis, yName: Axis): (b: Buffers)
    requires sel != [] && |revenue| == |sel|
    ensures |b.scatter| == |b.histX| == |b.histY| == |sel|
    ensures |b.histXOscar| == |b.histYOscar| == |OscarSubset(sel)|
  {
    var oscars := OscarSubset(sel);
    Buffers(Scatter(sel, revenue, xName, yName),
            Column(sel, xName), Column(sel, yName),
            Column(oscars, xName), Column(oscars, yName))
  }

  /** The dashboard's state: the loaded table, the genre selector's options,
      and what the plots show. */
  class Dashboard {
    var movies: seq<Row>
    var genreOptions: seq<string>
    var figure: Figure
    var buffers: Buffers

    /** Every row carries the columns derived from its movie. */
    ghost predicate Valid()
      reads this
    {
      AllDerived(movies)
    }

    /** Loading: derive the presentation columns of the (already filled)
        movies, collect the genre options behind "All", start with an empty
        scatter and histograms of the whole table's Tomato Meter (both
        horizontal ones) and number of reviews (both vertical ones). */
    constructor Load(filled: seq<Movie>)
      ensures Valid()
      ensures |movies| == |filled|
      ensures forall i :: 0 <= i < |filled| ==> movies[i].movie == filled[i]
      ensures genreOptions == ["All"] + Genres(seq(|filled|, i requires 0 <= i < |filled| => filled[i].genre))
      ensures figure == Figure("", "", "")
      ensures buffers.scatter == []
      ensures buffers.histX == buffers.histXOscar == Column(movies, Meter)
      ensures buffers.histY == buffers.histYOscar == Column(movies, NumberOfReviews)
    {
      var rows := seq(|filled|, i requires 0 <= i < |filled| => Derive(filled[i]));
      movies := rows;
      var genres := GetGenres(seq(|filled|, i requires 0 <= i < |filled| => filled[i].genre));
      genreOptions := ["All"] + genres;
      figure := Figure("", "", "");
      var meter, reviews := Column(rows, Meter), Column(rows, NumberOfReviews);
      buffers := Buffers([], meter, reviews, meter, reviews);
    }

    /** `update`: select the movies, set the axis labels and the title, parse
        the revenue column, size the markers against the selection's own
        revenue range, and replace the plotted data. A selection that raises
        or an unknown axis label changes nothing; an empty selection stops
        after the title, leaving the plotted data as it was; the revenue
        column always parses. */
    method Update(c: Controls, xLabel: string, yLabel: string) returns (outcome: Outcome)
      requires Valid()
      modifies this
      ensures Valid() && movies == old(movies) && genreOptions == old(genreOptions)
      ensures match SelectMovies(movies, c)
        case NotText(column) =>
          outcome == NotStrings(column) && figure == old(figure) && buffers == old(buffers)
        case Selected(sel) =>
          if xLabel !in AxisMap then
            outcome == UnknownAxis(xLabel) && figure == old(figure) && buffers == old(buffers)
          else if yLabel !in AxisMap then
            outcome == UnknownAxis(yLabel) && figure == old(figure) && buffers == old(buffers)
          else
            figure == Figure(xLabel, yLabel, Digits(|sel|) + " movies selected") &&
            ParseRevenues(sel).Some? &&
            (sel == [] ==> outcome == EmptySelection && buffers == old(buffers)) &&
            (sel != [] ==>
               outcome == Redrawn &&
               buffers == Redraw(sel, ParseRevenues(sel).value, AxisMap[xLabel], AxisMap[yLabel]))
    {
      var selection := SelectMovies(movies, c);
      if selection.NotText? {
        return NotStrings(selection.column);
      }
      var df := selection.rows;
      if xLabel !in AxisMap {
        return UnknownAxis(xLabel);
      }
      if yLabel !in AxisMap {
        return UnknownAxis(yLabel);
      }
      var xName, yName := AxisMap[xLabel], AxisMap[yLabel];
      figure := Figure(xLabel, yLabel, Digits(|df|) + " movies selected");
      SelectionParses(movies, c);
      var parsed := ParseRevenues(df);
      if parsed.None? {
        return UnparsableRevenue;
      }
      var revenue := parsed.value;
      if revenue == [] {
        return EmptySelection;
      }
      buffers := Redraw(df, revenue, xName, yName);
      return Redrawn;
    }
  }
}
