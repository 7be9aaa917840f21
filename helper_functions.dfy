/**
 The two helpers of the dashboard: the list of distinct genres offered by the
 genre selector, and the linear map from a box-office amount to a marker size.
 */
module HelperFunctions {
  import opened PyStr

  // ---------------------------------------------------------------------
  // get_genres

  /** `genre.strip().strip(',').capitalize()` */
  function Normalize(token: string): (genre: string)
    ensures |genre| <= |token|
  {
    Capitalize(Strip(Strip(token, IsSpace), IsComma))
  }

  /** The words `get_genres` takes from one cell: `split()` of a non-empty
      string. An empty string and the 0 of `fillna` are falsy and give no
      words; a non-zero number has no `split`, and the AttributeError it
      raises is swallowed, so it gives none either. */
  function CellWords(c: Cell): (words: seq<string>)
    ensures forall w :: w in words ==> w != "" && NoSpace(w)
  {
    if !Truthy(c) then []
    else
      match c
      case Text(s) => Split(s)
      case Number(_) => []
  }

  function NormalizeAll(words: seq<string>): (r: seq<string>)
    ensures |r| == |words|
  {
    if words == [] then [] else NormalizeAll(words[..|words| - 1]) + [Normalize(words[|words| - 1])]
  }

  lemma {:induction false} NormalizeAllAt(words: seq<string>, k: nat)
    requires k < |words|
    ensures NormalizeAll(words)[k] == Normalize(words[k])
    decreases |words|
  {
    if k < |words| - 1 {
      NormalizeAllAt(words[..|words| - 1], k);
    }
  }

  /** The normalised genres of one cell, in the order they appear in it. */
  function RowGenres(c: Cell): seq<string>
  {
    NormalizeAll(CellWords(c))
  }

  /** `acc` extended, token by token, with each token it does not hold yet. */
  function AddNew(acc: seq<string>, tokens: seq<string>): seq<string>
    decreases |tokens|
  {
    if tokens == [] then acc
    else
      var prev := AddNew(acc, tokens[..|tokens| - 1]);
      var t := tokens[|tokens| - 1];
      if t in prev then prev else prev + [t]
  }

  /** The tokens of the rows, merged first-seen-first with duplicates dropped. */
  function Collect(rows: seq<seq<string>>): seq<string>
  {
    if rows == [] then [] else AddNew(Collect(rows[..|rows| - 1]), rows[|rows| - 1])
  }

  /** The normalised genres of each row. */
  function GenreRows(cells: seq<Cell>): (rows: seq<seq<string>>)
    ensures |rows| == |cells|
  {
    if cells == [] then [] else GenreRows(cells[..|cells| - 1]) + [RowGenres(cells[|cells| - 1])]
  }

  lemma {:induction false} GenreRowsAt(cells: seq<Cell>, k: nat)
    requires k < |cells|
    ensures GenreRows(cells)[k] == RowGenres(cells[k])
    decreases |cells|
  {
    if k < |cells| - 1 {
      GenreRowsAt(cells[..|cells| - 1], k);
    }
  }

  /** The list `get_genres` returns for a genre column; it never holds a
      genre twice. */
  function Genres(cells: seq<Cell>): (genres: seq<string>)
    ensures Distinct(genres)
  {
    CollectDistinct(GenreRows(cells));
    Collect(GenreRows(cells))
  }

  predicate Distinct(s: seq<string>)
  {
    forall i, j :: 0 <= i < j < |s| ==> s[i] != s[j]
  }

  /** A genre as `get_genres` leaves it: no whitespace, no comma at either
      end, an upper-case first letter and lower-case letters after it. */
  predicate IsNormalised(g: string)
  {
    NoSpace(g) && (g != "" ==> g[0] != ',' && g[|g| - 1] != ',') && IsCapitalized(g)
  }

  /** `get_genres`: for each row, for each word of its genre cell, append the
      normalised word unless the list already holds it. */
  method GetGenres(cells: seq<Cell>) returns (genres: seq<string>)
    ensures genres == Genres(cells)
  {
    genres := [];
    for i := 0 to |cells|
      invariant genres == Genres(cells[..i])
    {
      var current: seq<string>;
      match cells[i] {
        case Text(s) =>
          current := if s != "" then Split(s) else [];
        case Number(_) =>
          // 0 is falsy; any other number fails at split() and is skipped
          current := [];
      }
      ghost var before := genres;
      for j := 0 to |current|
        invariant genres == AddNew(before, NormalizeAll(current[..j]))
      {
        var genre := Normalize(current[j]);
        AddNewNext(before, current, j);
        if genre !in genres {
          genres := genres + [genre];
        }
      }
      GenresNext(cells, i);
      assert current[..|current|] == current;
    }
    assert cells[..|cells|] == cells;
  }

  lemma AddNewNext(acc: seq<string>, words: seq<string>, j: nat)
    requires j < |words|
    ensures var prev := AddNew(acc, NormalizeAll(words[..j]));
            var g := Normalize(words[j]);
            AddNew(acc, NormalizeAll(words[..j + 1])) == if g in prev then prev else prev + [g]
  {
    assert words[..j + 1][..j] == words[..j];
  }

  lemma GenresNext(cells: seq<Cell>, i: nat)
    requires i < |cells|
    ensures Genres(cells[..i + 1]) == AddNew(Genres(cells[..i]), RowGenres(cells[i]))
  {
    assert cells[..i + 1][..i] == cells[..i];
  }

  /** Adding tokens only appends: the old list is a prefix, the members are the
      old ones and the tokens, and no duplicate is introduced. */
  lemma {:induction false} AddNewProperties(acc: seq<string>, tokens: seq<string>)
    ensures acc <= AddNew(acc, tokens)
    ensures forall g :: g in AddNew(acc, tokens) <==> g in acc || g in tokens
    ensures Distinct(acc) ==> Distinct(AddNew(acc, tokens))
    decreases |tokens|
  {
    if tokens != [] {
      var init := tokens[..|tokens| - 1];
      AddNewProperties(acc, init);
      assert tokens == init + [tokens[|tokens| - 1]];
    }
  }

  lemma {:induction false} CollectDistinct(rows: seq<seq<string>>)
    ensures Distinct(Collect(rows))
  {
    if rows != [] {
      CollectDistinct(rows[..|rows| - 1]);
      AddNewProperties(Collect(rows[..|rows| - 1]), rows[|rows| - 1]);
    }
  }

  lemma {:induction false} CollectPrefix(rows: seq<seq<string>>, i: nat)
    requires i <= |rows|
    ensures Collect(rows[..i]) <= Collect(rows)
    decreases |rows| - i
  {
    if i < |rows| {
      var init := rows[..|rows| - 1];
      assert rows[..i] == init[..i];
      CollectPrefix(init, i);
      AddNewProperties(Collect(init), rows[|rows| - 1]);
    } else {
      assert rows[..i] == rows;
    }
  }

  lemma {:induction false} CollectMembers(rows: seq<seq<string>>, g: string)
    ensures g in Collect(rows) <==> exists k :: 0 <= k < |rows| && g in rows[k]
  {
    if rows != [] {
      var n := |rows| - 1;
      var init := rows[..n];
      CollectMembers(init, g);
      AddNewProperties(Collect(init), rows[n]);
      if exists k :: 0 <= k < |rows| && g in rows[k] {
        var k :| 0 <= k < |rows| && g in rows[k];
        if k < n {
          assert init[k] == rows[k];
        }
      }
    }
  }

  /** First-seen order: the list built from the first `i` rows is a prefix of
      the list built from all of them. */
  lemma GenresPrefix(cells: seq<Cell>, i: nat)
    requires i <= |cells|
    ensures Genres(cells[..i]) <= Genres(cells)
  {
    GenreRowsPrefix(cells, i);
    CollectPrefix(GenreRows(cells), i);
  }

  lemma {:induction false} GenreRowsPrefix(cells: seq<Cell>, i: nat)
    requires i <= |cells|
    ensures GenreRows(cells[..i]) == GenreRows(cells)[..i]
    decreases |cells| - i
  {
    if i < |cells| {
      var init := cells[..|cells| - 1];
      assert cells[..i] == init[..i];
      GenreRowsPrefix(init, i);
    } else {
      assert cells[..i] == cells;
    }
  }

  /** Soundness and completeness: a genre is returned exactly when it is the
      normalised form of some word of some row's genre cell (the empty string
      included, which a lone "," normalises to). */
  lemma GenresMembers(cells: seq<Cell>, g: string)
    ensures g in Genres(cells) <==> exists k :: 0 <= k < |cells| && g in RowGenres(cells[k])
  {
    var rows := GenreRows(cells);
    CollectMembers(rows, g);
    if exists k :: 0 <= k < |cells| && g in RowGenres(cells[k]) {
      var k :| 0 <= k < |cells| && g in RowGenres(cells[k]);
      GenreRowsAt(cells, k);
    }
    if exists k :: 0 <= k < |rows| && g in rows[k] {
      var k :| 0 <= k < |rows| && g in rows[k];
      GenreRowsAt(cells, k);
    }
  }

  /** Capitalising keeps the whitespace of every position and a comma at
      either end. */
  lemma CapitalizeKeepsShape(u: string)
    requires NoSpace(u) && (u != "" ==> u[0] != ',' && u[|u| - 1] != ',')
    ensures var g := Capitalize(u);
      NoSpace(g) && (g != "" ==> g[0] != ',' && g[|g| - 1] != ',')
  {
    var g := Capitalize(u);
    forall k | 0 <= k < |g|
      ensures !IsSpace(g[k])
    {
      if k == 0 {
        assert g[0] == Upper(u[0]);
      } else {
        assert g[k] == Lower(u[k]);
      }
    }
    if |g| > 1 {
      assert g[|g| - 1] == Lower(u[|u| - 1]);
    }
  }

  lemma NormalizeWord(w: string)
    requires NoSpace(w)
    ensures IsNormalised(Normalize(w))
  {
    var t := Strip(w, IsSpace);
    var b, _ := StripSpec(w, IsSpace);
    var u := Strip(t, IsComma);
    var a, f := StripSpec(t, IsComma);
    assert u == t[a..f];
    forall k | 0 <= k < |u|
      ensures !IsSpace(u[k])
    {
      assert u[k] == t[a + k];
      assert t[a + k] == w[b + a + k];
    }
    assert u != "" ==> u[0] == t[a] && u[|u| - 1] == t[f - 1];
    CapitalizeKeepsShape(u);
    CapitalizeProperties(u);
  }

  /** Every returned genre is in normal form. */
  lemma GenresNormalised(cells: seq<Cell>)
    ensures forall g :: g in Genres(cells) ==> IsNormalised(g)
  {
    forall g | g in Genres(cells)
      ensures IsNormalised(g)
    {
      GenresMembers(cells, g);
      var k :| 0 <= k < |cells| && g in RowGenres(cells[k]);
      var words := CellWords(cells[k]);
      var j :| 0 <= j < |words| && g == RowGenres(cells[k])[j];
      NormalizeAllAt(words, j);
      assert words[j] in words;
      NormalizeWord(words[j]);
    }
  }

  /** A row whose genre cell is falsy or not a string leaves the list as it was. */
  lemma SkippedRow(cells: seq<Cell>, c: Cell)
    requires !Truthy(c) || c.Number?
    ensures Genres(cells + [c]) == Genres(cells)
  {
    assert (cells + [c])[..|cells|] == cells;
  }

  // ---------------------------------------------------------------------
  // map_point_size


  /** `map_point_size`. Outside the open interval (minRevenue, maxRevenue)
      the result is one of the two ends of the size range; which one is
      decided by comparing the revenue with `mapMin`, as the source does. */
  function MapPointSize(revenue: real, minRevenue: real, maxRevenue: real,
                        mapMin: real, mapMax: real): (size: real)
    ensures !(minRevenue < revenue < maxRevenue) ==> size == mapMin || size == mapMax
  {
    if !(minRevenue < revenue < maxRevenue) then
      if revenue <= mapMin then mapMin else mapMax
    else
      var currentValue := revenue - minRevenue;
      var mapRange := mapMax - mapMin;
      // the guard above gives minRevenue < maxRevenue, so this is never 0
      var revenueRange := maxRevenue - minRevenue;
      mapMin + (mapRange / revenueRange) * currentValue
  }

  /** Inside the interval the point (revenue, size) lies on the line through
      (minRevenue, mapMin) and (maxRevenue, mapMax). */
  lemma MapPointSizeInterpolates(revenue: real, minRevenue: real, maxRevenue: real,
                                 mapMin: real, mapMax: real)
    requires minRevenue < revenue < maxRevenue
    ensures (MapPointSize(revenue, minRevenue, maxRevenue, mapMin, mapMax) - mapMin) * (maxRevenue - minRevenue)
            == (mapMax - mapMin) * (revenue - minRevenue)
  {
    var q := (mapMax - mapMin) / (maxRevenue - minRevenue);
    assert q * (maxRevenue - minRevenue) == mapMax - mapMin;
    calc {
      (MapPointSize(revenue, minRevenue, maxRevenue, mapMin, mapMax) - mapMin) * (maxRevenue - minRevenue);
      q * (revenue - minRevenue) * (maxRevenue - minRevenue);
      q * (maxRevenue - minRevenue) * (revenue - minRevenue);
    }
  }

  /** With mapMin <= mapMax every size lies in [mapMin, mapMax]. */
  lemma MapPointSizeBounds(revenue: real, minRevenue: real, maxRevenue: real,
                           mapMin: real, mapMax: real)
    requires mapMin <= mapMax
    ensures mapMin <= MapPointSize(revenue, minRevenue, maxRevenue, mapMin, mapMax) <= mapMax
  {
    if minRevenue < revenue < maxRevenue {
      var d := maxRevenue - minRevenue;
      var q := (mapMax - mapMin) / d;
      var x := revenue - minRevenue;
      assert 0.0 <= q;
      assert q * x <= q * d;
      assert q * d == mapMax - mapMin;
    }
  }

  /** Inside the interval the size never decreases as the revenue grows. */
  lemma MapPointSizeMonotone(a: real, b: real, minRevenue: real, maxRevenue: real,
                             mapMin: real, mapMax: real)
    requires minRevenue < a <= b < maxRevenue
    requires mapMin <= mapMax
    ensures MapPointSize(a, minRevenue, maxRevenue, mapMin, mapMax)
            <= MapPointSize(b, minRevenue, maxRevenue, mapMin, mapMax)
  {
    var q := (mapMax - mapMin) / (maxRevenue - minRevenue);
    var x, y := a - minRevenue, b - minRevenue;
    assert 0.0 <= q && 0.0 <= y - x;
    assert 0.0 <= q * (y - x);
    assert q * y - q * x == q * (y - x);
  }

  /** When the selection's revenues are all equal (or the bounds are
      reversed) the division is never reached: the size is a clamp. */
  lemma MapPointSizeDegenerate(revenue: real, minRevenue: real, maxRevenue: real,
                               mapMin: real, mapMax: real)
    requires maxRevenue <= minRevenue
    ensures MapPointSize(revenue, minRevenue, maxRevenue, mapMin, mapMax)
            == if revenue <= mapMin then mapMin else mapMax
  {
  }

  /** The clamp compares the revenue with the size bound `mapMin`, not with
      `minRevenue`: once the selection's smallest revenue exceeds `mapMin`,
      the movie with that revenue gets the largest size, as does the one with
      the largest revenue, while revenues just above the minimum get sizes
      close to `mapMin`. */
  lemma MapPointSizeAtEnds(minRevenue: real, maxRevenue: real, mapMin: real, mapMax: real)
    requires mapMin < minRevenue < maxRevenue
    ensures MapPointSize(minRevenue, minRevenue, maxRevenue, mapMin, mapMax) == mapMax
    ensures MapPointSize(maxRevenue, minRevenue, maxRevenue, mapMin, mapMax) == mapMax
    ensures mapMin < mapMax ==>
      MapPointSize((minRevenue + maxRevenue) / 2.0, minRevenue, maxRevenue, mapMin, mapMax)
      == (mapMin + mapMax) / 2.0
  {
    var mid := (minRevenue + maxRevenue) / 2.0;
    MapPointSizeInterpolates(mid, minRevenue, maxRevenue, mapMin, mapMax);
  }
}
