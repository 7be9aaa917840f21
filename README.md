# bokeh_movies in Dafny

A model of the interactive movies dashboard of `bokeh_movies` (a Bokeh
server app over the Rotten Tomatoes sample table) and proofs about it.
The model covers:

- `get_genres`, which collects the distinct capitalised genre words of the
  table's `Genre` column in order of first appearance. It is a method with
  the source's two nested loops, proved equal to a specification function
  `Genres`. Further lemmas about `Genres` say that it has no duplicates,
  keeps first-seen order, holds exactly the normalised words of the rows and
  that every entry is in normal form.
- `map_point_size`, the mapping of a revenue from the selection's revenue
  range onto the marker-size range. Its out-of-range branch is kept as
  written: it compares the revenue with `map_min`, not with `min_revenue`.
- The load-time columns of the table: highlight colour and opacity from the
  Oscar count, and the box-office display string `'{:,d}'.format(int(x))`.
  The display string is proved to parse back (commas removed, then `float`)
  to the truncated box office.
- `select_movies`: five threshold masks, then substring filters on genre,
  director and cast. It is proved to keep exactly the rows one combined
  predicate admits, in table order. A text filter raises `AttributeError`
  when the rows reaching it are non-empty and none of them holds a string in
  that column (pandas refuses the `.str` accessor then). The model returns
  which column raised, and proves that this happens exactly when some active
  filter meets such rows.
- `update`: the axis lookup, the axis labels and title, the revenue parse,
  the selection's minimum and maximum, the marker sizes, the scatter data
  and the values handed to the four histograms, two of which take only the
  selected movies with more than one Oscar.

The dashboard is a class `MoviesApp.Dashboard`. Its constructor `Load` plays
the module's load-time code. Its method `Update` plays one `update()` call
and returns how that call ended. The Python string operations the code relies
on (`split`, `strip`, `capitalize`, `in`, `replace`) are modelled on ASCII in
module `PyStr`. The display format and its parse are in `RevenueFormat`.

Where the code and its written description differ, the model follows the
code:

- A text filter can raise `AttributeError`, before the axis labels and the
  title are set; `Update` then reports `NotStrings` and changes nothing.
- An empty selection makes `min()` raise. The title has already been set and
  the plotted data stay as they were; `Update` reports `EmptySelection`.
- `map_point_size` requires nothing of its bounds.
- The oscar histograms take `Oscars > 1`, although the comment says "at least
  one oscar"; the highlight colour uses `Oscars > 0`.

## Model

| member | source | states |
|---|---|---|
| HelperFunctions.GetGenres | utils/helper_functions.py:4-17 | the loop returns exactly `Genres(cells)`: each normalised word of each truthy string cell, appended when not yet present |
| HelperFunctions.Genres | utils/helper_functions.py:6-17 | the genre list never holds a word twice |
| HelperFunctions.GenresPrefix | utils/helper_functions.py:8-14 | the genres of the first i rows are a prefix of the genres of the whole table (first-seen order, later rows only append) |
| HelperFunctions.GenresMembers | utils/helper_functions.py:8-14 | a word is a genre if and only if it is the normalised form of a word of some row |
| HelperFunctions.GenresNormalised | utils/helper_functions.py:10-12 | every genre holds no whitespace, has no comma at either end and is capitalised |
| HelperFunctions.CapitalizeKeepsShape | utils/helper_functions.py:12 | `capitalize()` neither introduces whitespace nor a comma at either end |
| HelperFunctions.Normalize | utils/helper_functions.py:12 | `strip().strip(',').capitalize()` never lengthens a word; `NormalizeWord` states its normal form |
| HelperFunctions.CellWords | utils/helper_functions.py:10-16 | a cell yields words only when it is a truthy string; each word is non-empty and holds no whitespace |
| HelperFunctions.NormalizeWord | utils/helper_functions.py:12 | stripping spaces and commas and capitalising a split word gives a word in that normal form |
| HelperFunctions.SkippedRow | utils/helper_functions.py:10-16 | an empty string, a zero or any other non-string cell adds no genre |
| HelperFunctions.AddNewProperties | utils/helper_functions.py:11-14 | appending the new words keeps the old list as a prefix, adds exactly the given words and keeps the list free of duplicates |
| HelperFunctions.CollectDistinct | utils/helper_functions.py:8-14 | folding rows of words into the list keeps it duplicate-free |
| HelperFunctions.CollectPrefix | utils/helper_functions.py:8-14 | the fold over a prefix of the rows is a prefix of the fold over all rows |
| HelperFunctions.CollectMembers | utils/helper_functions.py:8-14 | a word is in the fold if and only if it is in some row |
| HelperFunctions.MapPointSize | utils/helper_functions.py:43-45 | outside the open revenue interval the size is one of the two ends of the size range |
| HelperFunctions.MapPointSizeInterpolates | utils/helper_functions.py:46-49 | inside the interval the (revenue, size) point lies on the line from (min_revenue, map_min) to (max_revenue, map_max) |
| HelperFunctions.MapPointSizeBounds | utils/helper_functions.py:43-49 | with map_min <= map_max every size lies in [map_min, map_max] |
| HelperFunctions.MapPointSizeMonotone | utils/helper_functions.py:46-49 | inside the interval a larger revenue never gets a smaller size |
| HelperFunctions.MapPointSizeDegenerate | utils/helper_functions.py:43-45 | when all revenues are equal no division happens and the size is the clamp |
| HelperFunctions.MapPointSizeAtEnds | utils/helper_functions.py:43-49 | when the smallest revenue exceeds map_min, both the smallest and the largest revenue get map_max, and the midpoint gets the middle size |
| PyStr.WordLength | utils/helper_functions.py:10 | the first word of a string ends at its first whitespace character |
| PyStr.Split | utils/helper_functions.py:10 | every word `split()` yields is non-empty and holds no whitespace |
| PyStr.SplitJoin | utils/helper_functions.py:10 | splitting words joined by single spaces gives the same words back |
| PyStr.TrimLeftSpec | utils/helper_functions.py:12 | `lstrip` keeps a suffix not starting with a stripped character and removes only stripped characters |
| PyStr.TrimRightSpec | utils/helper_functions.py:12 | `rstrip` keeps a prefix not ending with a stripped character and removes only stripped characters |
| PyStr.Strip | utils/helper_functions.py:12 | `strip` never lengthens a string, and what it keeps neither starts nor ends with a stripped character |
| PyStr.StripSpec | utils/helper_functions.py:12 | `strip` keeps one contiguous part whose ends are not stripped characters and removes only stripped characters |
| PyStr.Upper | utils/helper_functions.py:12 | upper-casing leaves no lower-case ASCII letter and keeps whitespace and commas |
| PyStr.Lower | utils/helper_functions.py:12 | lower-casing leaves no upper-case ASCII letter and keeps whitespace and commas |
| PyStr.Capitalize | utils/helper_functions.py:12 | same length, first character upper-cased, the rest lower-cased |
| PyStr.CapitalizeProperties | utils/helper_functions.py:12 | `capitalize()` yields a capitalised string equal to the input up to case, and is idempotent |
| PyStr.Contains | app/main.py:119-124 | a contained needle is no longer than the haystack; `ContainsAt` characterises `in` |
| PyStr.ContainsAt | app/main.py:119-124 | `needle in hay` holds if and only if the needle starts at some position of the haystack |
| PyStr.ContainsPart | app/main.py:119-124 | a string contains each of its parts, the empty string included |
| PyStr.RemoveChar | app/main.py:137 | `replace(",", "")` leaves no comma and never lengthens the string |
| PyStr.RemoveCharKeeps | app/main.py:137 | every character other than the comma is kept by the replace |
| PyStr.RemoveCharConcat | app/main.py:137 | removing commas distributes over concatenation |
| PyStr.RemoveCharAbsent | app/main.py:137 | a string without commas is unchanged by the replace |
| RevenueFormat.Trunc | app/main.py:40 | `int(x)` truncates toward zero |
| RevenueFormat.Digits | app/main.py:40 | the decimal digits of a whole number: non-empty, digits only, no leading zero |
| RevenueFormat.GroupThousands | app/main.py:40 | grouping keeps the empty string empty and the leading digit first, and never shortens; `UngroupThousands` and `GroupShape` state the rest |
| RevenueFormat.FormatThousands | app/main.py:40 | `'{:,d}'` starts with a minus sign exactly for a negative number, followed by a digit |
| RevenueFormat.DigitsRoundTrip | app/main.py:40 | reading the digits back gives the number |
| RevenueFormat.UngroupStep | app/main.py:137 | removing the commas from a grouped prefix, a comma and a comma-free group joins the two parts |
| RevenueFormat.UngroupThousands | app/main.py:137 | removing the commas from a grouped digit string gives the digits back |
| RevenueFormat.GroupShape | app/main.py:40 | every comma of `'{:,d}'` is followed by exactly three digits and then the end or a comma; the leading group has one to three digits |
| RevenueFormat.ParseFloat | app/main.py:137 | `float` of an accepted string is a whole number, negative only after a leading minus sign |
| RevenueFormat.ParseFloatRejects | app/main.py:137 | `float` refuses a string holding a character other than a minus sign or a digit |
| RevenueFormat.ParseNegative | app/main.py:137 | a minus sign followed by digits parses to the negated value of the digits |
| RevenueFormat.ParseRevenue | app/main.py:137 | an accepted display string parses to a whole number |
| RevenueFormat.ParseRevenueRejects | app/main.py:137 | a string holding a character other than a comma, a minus sign or a digit is refused |
| RevenueFormat.NegativeRoundTrip | app/main.py:137 | the display string of a negative amount parses back to that amount |
| RevenueFormat.RevenueRoundTrip | app/main.py:137 | parsing the display string of any whole amount gives that amount |
| MoviesApp.AxisMapLabels | app/main.py:42-49 | the axis map has six labels naming six different columns: every axis can be chosen, by exactly one label |
| MoviesApp.AxisValue | app/main.py:146-147 | the value a movie shows on an axis; review counts, running times and years are whole numbers |
| MoviesApp.Derive | app/main.py:37-40 | orange with opacity 0.9 exactly when the movie won an Oscar, grey with 0.25 otherwise; the display string parses to the truncated box office |
| MoviesApp.Keep | app/main.py:111-117 | a boolean mask never lengthens the table |
| MoviesApp.KeepProperties | app/main.py:111-117 | a mask keeps exactly the rows satisfying it, in table order |
| MoviesApp.KeepKeep | app/main.py:119-124 | masking twice equals masking once with the conjunction |
| MoviesApp.KeepSame | app/main.py:111-124 | masks that agree on every row keep the same rows |
| MoviesApp.TextMask | app/main.py:119-124 | one text mask: it raises only on a non-empty column, naming that column; when it returns, every kept row's cell is a string containing the needle, and no rows are added |
| MoviesApp.SelectMovies | app/main.py:107-125 | a returned selection is no longer than the table; a raise names a text filter that was active |
| MoviesApp.MaskStep | app/main.py:119-124 | on the rows passing the earlier tests, a mask raises exactly when it is active and those rows are non-empty with no string in its column; otherwise it keeps the rows passing the earlier tests and its own |
| MoviesApp.SelectMoviesIsOneMask | app/main.py:107-125 | the successive masks raise exactly when some active mask meets non-empty rows with no string in its column, naming such a column; otherwise they equal one mask with the combined admission predicate |
| MoviesApp.SelectMoviesCorrect | app/main.py:107-125 | when the selection returns, a row is selected if and only if it is in the table and meets every threshold and every active text filter; the selection keeps table order |
| MoviesApp.MissingGenreRaises | app/main.py:119-120 | a single movie passing the thresholds with a missing genre makes an active genre filter raise |
| MoviesApp.BlankTextControls | app/main.py:109-124 | a director or cast input of only whitespace gives the same outcome as an empty one |
| MoviesApp.ActiveTextControls | app/main.py:121-124 | when the selection returns, an active director or cast filter keeps only rows whose cell is a string containing the trimmed input |
| MoviesApp.SelectionDerived | app/main.py:129 | the selected rows still carry the columns derived at load time |
| MoviesApp.SelectionParses | app/main.py:129-137 | the revenue column of a returned selection always parses |
| MoviesApp.ParseRevenues | app/main.py:137 | a successful parse gives one number per row |
| MoviesApp.ParseDerivedRevenues | app/main.py:137 | the revenue column of loaded rows always parses, each row to its truncated box office |
| MoviesApp.SeqMin | app/main.py:138 | `min` of a non-empty column is one of its values and no value is smaller |
| MoviesApp.SeqMax | app/main.py:139 | `max` of a non-empty column is one of its values and no value is larger |
| MoviesApp.Sizes | app/main.py:140-144 | one marker size per selected row |
| MoviesApp.SizesInRange | app/main.py:140-144 | every marker size lies in [MIN_POINT_SIZE, MAX_POINT_SIZE] |
| MoviesApp.Scatter | app/main.py:145-154 | one scatter point per selected row |
| MoviesApp.ScatterProperties | app/main.py:145-154 | each point shows the movie's axis values, its highlight (orange exactly when it won an Oscar), its truncated box office and a size in range |
| MoviesApp.Column | app/main.py:157-162 | a histogram bins one value per row |
| MoviesApp.OscarSubset | app/main.py:168-173 | the Oscar histograms' rows are exactly the given rows with more than one Oscar |
| MoviesApp.OscarSubsetProperties | app/main.py:168-173 | the Oscar subset keeps selection order, and all of its rows are highlighted |
| MoviesApp.Redraw | app/main.py:145-176 | the scatter and the two main histograms get one value per selected row; the Oscar histograms one per row of the Oscar subset |
| MoviesApp.Dashboard.Load | app/main.py:37-51 | every row derives from its movie; the genre options are "All" followed by the genres of the table; empty title and scatter; histograms of the whole table's meter and reviews |
| MoviesApp.Dashboard.Update | app/main.py:128-176 | a text filter that raises changes nothing and reports the column, as does an unknown axis label; otherwise labels and title are set from the selection size, the revenue always parses, an empty selection leaves the plotted data unchanged and a non-empty one publishes `Redraw` of the selection |

## Left out

- The Bokeh widgets, figures, layout, callbacks and document (`curdoc`) are not modelled. The control values reach `Update` as a `Controls` record and two axis labels. The slider ranges, steps and defaults are not modelled; `Update` accepts any values.
- Reading the SQLite table, the query file and the description page is I/O and is left out. `Load` receives the rows with missing values already filled.
- The `sys.path` fallback import is left out.
- `np.histogram` is not modelled. The model gives each histogram the sequence of values it bins; the 50 bins and their counts are left out.
- Colour and opacity are computed before `fillna`. The model computes them on the filled rows. This is equivalent because a missing Oscar count compares false with 0, like a filled 0.
- MoviesApp.SelectMovies: `str.contains` takes its argument as a regular expression; the model matches it as a literal substring. The two agree on inputs without regular-expression metacharacters.
- MoviesApp.SelectMovies: the `.str` accessor is taken to refuse a column exactly when it is non-empty and holds no string. A text column that is numeric in the whole table would make pandas refuse even an empty selection; the model does not cover that case, because it only arises when no movie has a string in that column.
- Float arithmetic is modelled with exact reals: the `1e6` scaling, the map's division and the 2^53 precision limit of large amounts are not rounded.
- RevenueFormat.ParseFloat: accepts only an optional minus sign followed by digits, which is all the display format produces. Other forms `float` accepts (a decimal point, exponents, surrounding whitespace, `inf`, `nan`) are not modelled.
- Whitespace and letter case follow ASCII only. Non-ASCII whitespace and letters are left unchanged by the model's `split`, `strip` and `capitalize`.
- The `genres_col` parameter of `get_genres` is left out. `GetGenres` receives the column's cells directly.
- The sorted option list of the axis selectors is not modelled; any label outside the axis map yields `UnknownAxis`.
- The initial `update()` call at the end of the module is left to the caller: `Load` followed by `Update`.
- Overwriting the `revenue` column of the selection is modelled as a new local sequence. The loaded table is left unchanged, as it is in the code, where the selection is a copy.
