/**
 * The movie records the viewer receives and the list it derives from them on
 * every render: keep the movies whose title contains the search text (ignoring
 * case), optionally keep only favourites, then sort a copy by title, by
 * rating, or not at all.
 */
module Movies {
  import opened Wrappers
  import opened JsString

  /**
   * One movie of the response. Every field the viewer reads may be missing;
   * `voteAverage` is an integer stand-in for the JSON number.
   */
  datatype Movie = Movie(
    id: int,
    originalTitle: Option<string>,
    releaseDate: Option<string>,
    voteAverage: Option<int>,
    posterPath: Option<string>,
    overview: Option<string>,
    originalLanguage: Option<string>)

  /** The response body of the paginated endpoint, in either of the two shapes it may take. */
  datatype Response =
    | BareArray(items: seq<Movie>)
    | Wrapped(data: Option<seq<Movie>>, totalPages: Option<int>)

  /** The movie list a response yields: the array itself, or `data.data || []`. */
  function MoviesOf(body: Response): (r: seq<Movie>)
    ensures body.BareArray? ==> r == body.items
    ensures body.Wrapped? ==> r == if body.data.Some? then body.data.value else []
  {
    match body
    case BareArray(items) => items
    case Wrapped(data, _) => if data.Some? then data.value else []
  }

  /** `data.totalPages || 1`: a missing or zero count (and any bare array) gives one page. */
  function TotalPagesOf(body: Response): (r: int)
    ensures r != 0
    ensures body.BareArray? ==> r == 1
    ensures body.Wrapped? && (body.totalPages.None? || body.totalPages.value == 0) ==> r == 1
    ensures body.Wrapped? && body.totalPages.Some? && body.totalPages.value != 0 ==> r == body.totalPages.value
  {
    match body
    case BareArray(_) => 1
    case Wrapped(_, total) => if total.Some? && total.value != 0 then total.value else 1
  }

  /** A bare array and an object carrying the same array under `data` give the same state. */
  lemma ResponseShapesAgree(items: seq<Movie>)
    ensures MoviesOf(BareArray(items)) == MoviesOf(Wrapped(Some(items), None))
    ensures TotalPagesOf(BareArray(items)) == TotalPagesOf(Wrapped(Some(items), None)) == 1
  {
  }

  predicate Titled(m: Movie)
  {
    m.originalTitle.Some?
  }

  /** `movie.original_title?.toLowerCase().includes(search.toLowerCase())`. */
  predicate TitleMatches(m: Movie, search: string): (r: bool)
    ensures r ==> Titled(m)
    ensures Titled(m) ==> (r <==> Includes(ToLower(m.originalTitle.value), ToLower(search)))
  {
    m.originalTitle.Some? && Includes(ToLower(m.originalTitle.value), ToLower(search))
  }

  /** The first `filter`: the movies whose title matches, in their original order. */
  function TitleFiltered(movies: seq<Movie>, search: string): (r: seq<Movie>)
    ensures forall m {:trigger multiset(r)[m]} :: multiset(r)[m] == if TitleMatches(m, search) then multiset(movies)[m] else 0
    ensures forall i :: 0 <= i < |r| ==> TitleMatches(r[i], search)
    ensures (forall i :: 0 <= i < |movies| ==> TitleMatches(movies[i], search)) ==> r == movies
    ensures |movies| == 1 ==> r == if TitleMatches(movies[0], search) then movies else []
  {
    if movies == [] then []
    else
      var rest := TitleFiltered(movies[1..], search);
      var r := if TitleMatches(movies[0], search) then [movies[0]] + rest else rest;
      TitleFilteredStep(movies, search, rest, r);
      r
  }

  /** One step of the title filter: the head is kept in front when it matches and dropped otherwise. */
  lemma TitleFilteredStep(movies: seq<Movie>, search: string, rest: seq<Movie>, r: seq<Movie>)
    requires movies != []
    requires forall m {:trigger multiset(rest)[m]} :: multiset(rest)[m] == if TitleMatches(m, search) then multiset(movies[1..])[m] else 0
    requires forall i :: 0 <= i < |rest| ==> TitleMatches(rest[i], search)
    requires (forall i :: 0 <= i < |movies[1..]| ==> TitleMatches(movies[1..][i], search)) ==> rest == movies[1..]
    requires |movies| == 1 ==> rest == []
    requires r == if TitleMatches(movies[0], search) then [movies[0]] + rest else rest
    ensures forall m {:trigger multiset(r)[m]} :: multiset(r)[m] == if TitleMatches(m, search) then multiset(movies)[m] else 0
    ensures forall i :: 0 <= i < |r| ==> TitleMatches(r[i], search)
    ensures (forall i :: 0 <= i < |movies| ==> TitleMatches(movies[i], search)) ==> r == movies
    ensures |movies| == 1 ==> r == if TitleMatches(movies[0], search) then movies else []
  {
    assert movies == [movies[0]] + movies[1..];
    assert multiset(movies) == multiset{movies[0]} + multiset(movies[1..]);
    if forall i :: 0 <= i < |movies| ==> TitleMatches(movies[i], search) {
      forall i | 0 <= i < |movies[1..]| ensures TitleMatches(movies[1..][i], search) {
        assert movies[1..][i] == movies[i + 1];
      }
    }
  }

  /** The second `filter`: the movies whose id is among the favourites, in their original order. */
  function FavoriteFiltered(movies: seq<Movie>, favorites: seq<int>): (r: seq<Movie>)
    ensures forall m {:trigger multiset(r)[m]} :: multiset(r)[m] == if m.id in favorites then multiset(movies)[m] else 0
    ensures forall i :: 0 <= i < |r| ==> r[i].id in favorites
    ensures forall m :: m in r ==> m in movies
    ensures |movies| == 1 ==> r == if movies[0].id in favorites then movies else []
  {
    if movies == [] then []
    else
      var rest := FavoriteFiltered(movies[1..], favorites);
      assert movies == [movies[0]] + movies[1..];
      if movies[0].id in favorites then [movies[0]] + rest else rest
  }

  /** Whether the derivation keeps a movie: its title matches, and it is a favourite when only favourites are shown. */
  predicate Kept(m: Movie, search: string, showFavorites: bool, favorites: seq<int>): (r: bool)
    ensures r ==> TitleMatches(m, search)
    ensures r && showFavorites ==> m.id in favorites
    ensures !showFavorites ==> (r <==> TitleMatches(m, search))
    ensures showFavorites && m.id !in favorites ==> !r
  {
    TitleMatches(m, search) && (showFavorites ==> m.id in favorites)
  }

  /** The list before sorting, with every kept movie exactly as often as in `movies`. */
  function Filtered(movies: seq<Movie>, search: string, showFavorites: bool, favorites: seq<int>): (r: seq<Movie>)
    ensures forall m :: multiset(r)[m] == if Kept(m, search, showFavorites, favorites) then multiset(movies)[m] else 0
    ensures forall i :: 0 <= i < |r| ==> Kept(r[i], search, showFavorites, favorites)
    ensures |movies| == 1 ==> r == if Kept(movies[0], search, showFavorites, favorites) then movies else []
  {
    var byTitle := TitleFiltered(movies, search);
    if showFavorites then FavoriteFiltered(byTitle, favorites) else byTitle
  }

  /**
   * `filter` keeps the input order: filtering a concatenation filters each
   * part and concatenates the results. With the one-movie case of the
   * filters' contracts this fixes the order of what they keep.
   */
  lemma {:induction false} TitleFilteredAppend(a: seq<Movie>, b: seq<Movie>, search: string)
    ensures TitleFiltered(a + b, search) == TitleFiltered(a, search) + TitleFiltered(b, search)
    decreases |a|
  {
    if a == [] {
      assert a + b == b;
    } else {
      var head := if TitleMatches(a[0], search) then [a[0]] else [];
      var ab := a + b;
      assert ab[0] == a[0] && ab[1..] == a[1..] + b;
      calc {
        TitleFiltered(ab, search);
        { TitleFilteredCons(ab, search); }
        head + TitleFiltered(a[1..] + b, search);
        { TitleFilteredAppend(a[1..], b, search); }
        head + (TitleFiltered(a[1..], search) + TitleFiltered(b, search));
        (head + TitleFiltered(a[1..], search)) + TitleFiltered(b, search);
        { TitleFilteredCons(a, search); }
        TitleFiltered(a, search) + TitleFiltered(b, search);
      }
    }
  }

  lemma TitleFilteredCons(x: seq<Movie>, search: string)
    requires x != []
    ensures TitleFiltered(x, search)
         == (if TitleMatches(x[0], search) then [x[0]] else []) + TitleFiltered(x[1..], search)
  {
  }

  lemma {:induction false} FavoriteFilteredAppend(a: seq<Movie>, b: seq<Movie>, favorites: seq<int>)
    ensures FavoriteFiltered(a + b, favorites) == FavoriteFiltered(a, favorites) + FavoriteFiltered(b, favorites)
    decreases |a|
  {
    if a == [] {
      assert a + b == b;
    } else {
      var head := if a[0].id in favorites then [a[0]] else [];
      var ab := a + b;
      assert ab[0] == a[0] && ab[1..] == a[1..] + b;
      calc {
        FavoriteFiltered(ab, favorites);
        { FavoriteFilteredCons(ab, favorites); }
        head + FavoriteFiltered(a[1..] + b, favorites);
        { FavoriteFilteredAppend(a[1..], b, favorites); }
        head + (FavoriteFiltered(a[1..], favorites) + FavoriteFiltered(b, favorites));
        (head + FavoriteFiltered(a[1..], favorites)) + FavoriteFiltered(b, favorites);
        { FavoriteFilteredCons(a, favorites); }
        FavoriteFiltered(a, favorites) + FavoriteFiltered(b, favorites);
      }
    }
  }

  lemma FavoriteFilteredCons(x: seq<Movie>, favorites: seq<int>)
    requires x != []
    ensures FavoriteFiltered(x, favorites)
         == (if x[0].id in favorites then [x[0]] else []) + FavoriteFiltered(x[1..], favorites)
  {
  }

  lemma FilteredAppend(a: seq<Movie>, b: seq<Movie>, search: string, showFavorites: bool, favorites: seq<int>)
    ensures Filtered(a + b, search, showFavorites, favorites)
         == Filtered(a, search, showFavorites, favorites) + Filtered(b, search, showFavorites, favorites)
  {
    TitleFilteredAppend(a, b, search);
    FavoriteFilteredAppend(TitleFiltered(a, search), TitleFiltered(b, search), favorites);
  }

  /** The rating the comparator uses: `vote_average || 0`, so a missing rating counts as 0. */
  function RatingKey(m: Movie): (r: int)
    ensures m.voteAverage.Some? ==> r == m.voteAverage.value
    ensures m.voteAverage.None? ==> r == 0
  {
    if m.voteAverage.Some? then m.voteAverage.value else 0
  }

  /** The comparator may only be asked about titled movies when sorting by title. */
  predicate Comparable(sortBy: string, m: Movie)
  {
    sortBy == "title" ==> Titled(m)
  }

  /**
   * The comparator handed to `sort`: negative when `a` goes first. By title it
   * is `localeCompare`, by rating it puts the higher rating first, and any
   * other key calls every pair equal.
   */
  function Compare(sortBy: string, a: Movie, b: Movie): (r: int)
    requires Comparable(sortBy, a) && Comparable(sortBy, b)
    ensures sortBy == "title" ==> (r <= 0 <==> LocaleCompare(a.originalTitle.value, b.originalTitle.value) <= 0)
    ensures sortBy == "rating" ==> (r <= 0 <==> RatingKey(a) >= RatingKey(b))
    ensures sortBy != "title" && sortBy != "rating" ==> r == 0
  {
    if sortBy == "title" then LocaleCompare(a.originalTitle.value, b.originalTitle.value)
    else if sortBy == "rating" then RatingKey(b) - RatingKey(a)
    else 0
  }

  /** The comparator is consistent: swapping the arguments flips the sign. */
  lemma CompareAntisymmetric(sortBy: string, a: Movie, b: Movie)
    requires Comparable(sortBy, a) && Comparable(sortBy, b)
    ensures Compare(sortBy, a, b) == -Compare(sortBy, b, a)
  {
    if sortBy == "title" {
      LocaleCompareAntisymmetric(a.originalTitle.value, b.originalTitle.value);
    }
  }

  /** "Goes no later than" is transitive. */
  lemma CompareTransitive(sortBy: string, a: Movie, b: Movie, c: Movie)
    requires Comparable(sortBy, a) && Comparable(sortBy, b) && Comparable(sortBy, c)
    requires Compare(sortBy, a, b) <= 0 && Compare(sortBy, b, c) <= 0
    ensures Compare(sortBy, a, c) <= 0
  {
    if sortBy == "title" {
      LocaleCompareTransitive(a.originalTitle.value, b.originalTitle.value, c.originalTitle.value);
    }
  }

  predicate AllComparable(sortBy: string, s: seq<Movie>)
  {
    forall i :: 0 <= i < |s| ==> Comparable(sortBy, s[i])
  }

  /** Every pair of the list is in comparator order. */
  predicate Sorted(sortBy: string, s: seq<Movie>)
    requires AllComparable(sortBy, s)
  {
    forall i, j :: 0 <= i < j < |s| ==> Compare(sortBy, s[i], s[j]) <= 0
  }

  /** Puts `x` in front of the first element it may precede; it goes ahead of equal elements. */
  function Insert(sortBy: string, x: Movie, s: seq<Movie>): (r: seq<Movie>)
    requires Comparable(sortBy, x) && AllComparable(sortBy, s)
    requires Sorted(sortBy, s)
    ensures multiset(r) == multiset(s) + multiset{x}
    ensures AllComparable(sortBy, r)
    ensures Sorted(sortBy, r)
    decreases |s|
  {
    if s == [] then [x]
    else if Compare(sortBy, x, s[0]) <= 0 then
      InsertFront(sortBy, x, s);
      [x] + s
    else
      var rest := Insert(sortBy, x, s[1..]);
      InsertBehind(sortBy, x, s, rest);
      [s[0]] + rest
  }

  /** When `x` goes after the head, the head stays in front of the insertion into the tail. */
  lemma InsertBehind(sortBy: string, x: Movie, s: seq<Movie>, rest: seq<Movie>)
    requires Comparable(sortBy, x) && AllComparable(sortBy, s)
    requires Sorted(sortBy, s) && s != [] && Compare(sortBy, x, s[0]) > 0
    requires multiset(rest) == multiset(s[1..]) + multiset{x}
    requires AllComparable(sortBy, rest) && Sorted(sortBy, rest)
    ensures multiset([s[0]] + rest) == multiset(s) + multiset{x}
    ensures AllComparable(sortBy, [s[0]] + rest) && Sorted(sortBy, [s[0]] + rest)
  {
    assert s == [s[0]] + s[1..];
    CompareAntisymmetric(sortBy, x, s[0]);
    forall k | 0 <= k < |rest| ensures Compare(sortBy, s[0], rest[k]) <= 0 {
      assert rest[k] in multiset(rest);
      if rest[k] != x {
        assert rest[k] in s[1..];
        var j :| 0 <= j < |s[1..]| && s[1..][j] == rest[k];
        assert s[j + 1] == rest[k];
      }
    }
    SortedCons(sortBy, s[0], rest);
  }

  lemma InsertFront(sortBy: string, x: Movie, s: seq<Movie>)
    requires Comparable(sortBy, x) && AllComparable(sortBy, s)
    requires Sorted(sortBy, s) && s != [] && Compare(sortBy, x, s[0]) <= 0
    ensures AllComparable(sortBy, [x] + s) && Sorted(sortBy, [x] + s)
  {
    var r := [x] + s;
    forall i, j | 0 <= i < j < |r| ensures Compare(sortBy, r[i], r[j]) <= 0 {
      if i == 0 && j > 1 {
        CompareTransitive(sortBy, x, s[0], s[j - 1]);
      }
    }
  }

  /** A head that may precede every element of a sorted tail gives a sorted list. */
  lemma SortedCons(sortBy: string, y: Movie, rest: seq<Movie>)
    requires Comparable(sortBy, y) && AllComparable(sortBy, rest) && Sorted(sortBy, rest)
    requires forall k :: 0 <= k < |rest| ==> Compare(sortBy, y, rest[k]) <= 0
    ensures AllComparable(sortBy, [y] + rest) && Sorted(sortBy, [y] + rest)
  {
    var r := [y] + rest;
    forall i, j | 0 <= i < j < |r| ensures Compare(sortBy, r[i], r[j]) <= 0 {
      if i == 0 { assert r[j] == rest[j - 1]; }
    }
  }

  /** `[...movies].sort(comparator)`: a stable sort of a copy, here an insertion sort. */
  function SortMovies(sortBy: string, s: seq<Movie>): (r: seq<Movie>)
    requires AllComparable(sortBy, s)
    ensures multiset(r) == multiset(s)
    ensures AllComparable(sortBy, r)
    ensures Sorted(sortBy, r)
    decreases |s|
  {
    if s == [] then []
    else
      assert s == [s[0]] + s[1..];
      Insert(sortBy, s[0], SortMovies(sortBy, s[1..]))
  }

  /** A comparator that calls every pair equal leaves the list as it was (the sort is stable). */
  lemma {:induction false} SortUnrecognizedKeyIsIdentity(sortBy: string, s: seq<Movie>)
    requires sortBy != "title" && sortBy != "rating"
    ensures SortMovies(sortBy, s) == s
    decreases |s|
  {
    if s != [] {
      SortUnrecognizedKeyIsIdentity(sortBy, s[1..]);
      var t := SortMovies(sortBy, s[1..]);
      InsertAhead(sortBy, s[0], t);
      assert s == [s[0]] + s[1..];
    }
  }

  /** An element that may precede the head of a sorted list is inserted in front of it. */
  lemma InsertAhead(sortBy: string, x: Movie, t: seq<Movie>)
    requires Comparable(sortBy, x) && AllComparable(sortBy, t) && Sorted(sortBy, t)
    requires t == [] || Compare(sortBy, x, t[0]) <= 0
    ensures Insert(sortBy, x, t) == [x] + t
  {
  }

  /**
   * The visible list (the derivation re-run on every render): exactly the kept
   * movies, each as often as in `movies`, in title order or in non-increasing
   * rating order as `sortBy` asks.
   */
  function VisibleMovies(movies: seq<Movie>, search: string, showFavorites: bool,
                         favorites: seq<int>, sortBy: string): (r: seq<Movie>)
    ensures forall m :: multiset(r)[m] == if Kept(m, search, showFavorites, favorites) then multiset(movies)[m] else 0
    ensures forall i :: 0 <= i < |r| ==> Titled(r[i]) && Includes(ToLower(r[i].originalTitle.value), ToLower(search))
    ensures showFavorites ==> forall i :: 0 <= i < |r| ==> r[i].id in favorites
    ensures sortBy == "title" ==> forall i, j :: 0 <= i < j < |r| ==>
      Titled(r[i]) && Titled(r[j]) && LocaleCompare(r[i].originalTitle.value, r[j].originalTitle.value) <= 0
    ensures sortBy == "rating" ==> forall i, j :: 0 <= i < j < |r| ==> RatingKey(r[i]) >= RatingKey(r[j])
  {
    var kept := Filtered(movies, search, showFavorites, favorites);
    var r := SortMovies(sortBy, kept);
    PermutationKeepsKept(kept, r, search, showFavorites, favorites);
    SortedOrder(sortBy, r);
    r
  }

  lemma PermutationKeepsKept(kept: seq<Movie>, r: seq<Movie>, search: string, showFavorites: bool, favorites: seq<int>)
    requires multiset(r) == multiset(kept)
    requires forall i :: 0 <= i < |kept| ==> Kept(kept[i], search, showFavorites, favorites)
    ensures forall i :: 0 <= i < |r| ==> Kept(r[i], search, showFavorites, favorites)
  {
    forall i | 0 <= i < |r| ensures Kept(r[i], search, showFavorites, favorites) {
      assert r[i] in multiset(r);
      assert r[i] in kept;
    }
  }

  /** What comparator order means for the two recognised keys. */
  lemma SortedOrder(sortBy: string, r: seq<Movie>)
    requires AllComparable(sortBy, r) && Sorted(sortBy, r)
    ensures sortBy == "title" ==> forall i, j :: 0 <= i < j < |r| ==>
      Titled(r[i]) && Titled(r[j]) && LocaleCompare(r[i].originalTitle.value, r[j].originalTitle.value) <= 0
    ensures sortBy == "rating" ==> forall i, j :: 0 <= i < j < |r| ==> RatingKey(r[i]) >= RatingKey(r[j])
  {
    forall i, j | 0 <= i < j < |r| ensures Compare(sortBy, r[i], r[j]) <= 0 { }
  }

  /** With an unrecognised sort key the visible list keeps the filtered order. */
  lemma UnrecognizedKeyKeepsOrder(movies: seq<Movie>, search: string, showFavorites: bool,
                                  favorites: seq<int>, sortBy: string)
    requires sortBy != "title" && sortBy != "rating"
    ensures VisibleMovies(movies, search, showFavorites, favorites, sortBy)
         == Filtered(movies, search, showFavorites, favorites)
  {
    SortUnrecognizedKeyIsIdentity(sortBy, Filtered(movies, search, showFavorites, favorites));
  }

  /** Showing only favourites with no favourites shows nothing, whatever the search text. */
  lemma NoFavoritesShowsNothing(movies: seq<Movie>, search: string, sortBy: string)
    ensures VisibleMovies(movies, search, true, [], sortBy) == []
  {
  }

  /** An empty search matches exactly the titled movies. */
  lemma EmptySearchMatchesTitled(m: Movie)
    ensures TitleMatches(m, "") <==> Titled(m)
  {
    if Titled(m) {
      EmptyIncludedEverywhere(ToLower(m.originalTitle.value));
    }
  }

  /** So an empty search keeps every titled movie, as often as it occurs. */
  lemma EmptySearchKeepsTitled(movies: seq<Movie>)
    ensures forall m :: multiset(TitleFiltered(movies, ""))[m] == if Titled(m) then multiset(movies)[m] else 0
  {
    forall m ensures TitleMatches(m, "") <==> Titled(m) {
      EmptySearchMatchesTitled(m);
    }
  }

  /** The search ignores case: lower-casing the search text first changes nothing. */
  lemma SearchIgnoresCase(m: Movie, search: string)
    ensures TitleMatches(m, search) == TitleMatches(m, ToLower(search))
  {
    ToLowerIdempotent(search);
  }

  /** A movie with only an id, a title and a rating; the other fields are missing. */
  function Sample(id: int, title: string, rating: Option<int>): Movie
  {
    Movie(id, Some(title), None, rating, None, None, None)
  }

  /** Searching "THE" finds "The Matrix". */
  lemma UpperCaseSearchFindsTitle()
    ensures TitleMatches(Sample(1, "The Matrix", None), "THE")
  {
    assert ToLower("THE") == "the";
    assert ToLower("The Matrix")[..3] == "the";
    assert OccursAt(ToLower("The Matrix"), "the", 0);
  }

  /** Sorting by title puts "A" before "B". */
  lemma TitleSortExample()
    ensures SortMovies("title", [Sample(2, "B", None), Sample(1, "A", None)])
         == [Sample(1, "A", None), Sample(2, "B", None)]
  {
    var a, b := Sample(1, "A", None), Sample(2, "B", None);
    assert [b, a][1..] == [a];
    assert SortMovies("title", [a]) == [a];
    assert LocaleCompare("B", "A") == 1;
    assert [a][1..] == [];
    InsertAhead("title", b, []);
  }

  /** Sorting by rating gives 8, then 5, then the unrated movie (counted as 0). */
  lemma RatingSortExample()
    ensures SortMovies("rating", [Sample(1, "x", Some(5)), Sample(2, "y", Some(8)), Sample(3, "z", None)])
         == [Sample(2, "y", Some(8)), Sample(1, "x", Some(5)), Sample(3, "z", None)]
  {
    var five, eight, none := Sample(1, "x", Some(5)), Sample(2, "y", Some(8)), Sample(3, "z", None);
    var tail := SortMovies("rating", [eight, none]);
    InsertExample(five, eight, none);
    assert tail == [eight, none] by {
      SortPairExample(eight, none);
    }
    assert [five, eight, none][1..] == [eight, none];
  }

  lemma SortPairExample(eight: Movie, none: Movie)
    requires RatingKey(eight) == 8 && RatingKey(none) == 0
    ensures SortMovies("rating", [eight, none]) == [eight, none]
  {
    assert [eight, none][1..] == [none];
    assert [none][1..] == [];
  }

  lemma InsertExample(five: Movie, eight: Movie, none: Movie)
    requires RatingKey(five) == 5 && RatingKey(eight) == 8 && RatingKey(none) == 0
    ensures Insert("rating", five, [eight, none]) == [eight, five, none]
  {
    InsertAhead("rating", five, [none]);
    assert [eight, none][1..] == [none];
  }
}
