/**
 * The root view's state and the updates its effects and event handlers make:
 * the fetch of a page (start, success, failure), toggling a favourite, the
 * page buttons, the dark-mode and favourites-only switches, the search box,
 * the sort selector and the detail modal. What the view shows is a function of
 * that state.
 */
module AppState {
  import opened Wrappers
  import opened Movies
  import Favorites
  import opened Paging
  import opened Display
  import opened MovieCard

  /** How one page request settles: with a response body, or with an error's `message`. */
  datatype Outcome = Success(body: Response) | Failure(message: string)

  /** What the movie grid shows, in the order the view tests for it. */
  datatype Grid = LoadingMessage | ErrorMessage(text: string) | NoMoviesFound | Cards(cards: seq<CardProps>)

  /** The props the root view hands one card; the genre is always the literal "N/A". */
  function CardPropsOf(m: Movie, favorites: seq<int>, darkMode: bool): (p: CardProps)
    ensures p.isFavorite <==> m.id in favorites
    ensures p.genre == Some("N/A")
    ensures p.year == YearText(m.releaseDate) && p.rating == RatingOf(m.voteAverage)
    ensures p.title == m.originalTitle && p.image == m.posterPath
    ensures p.description == m.overview && p.darkMode == darkMode
  {
    CardProps(m.originalTitle, Some("N/A"), YearText(m.releaseDate), RatingOf(m.voteAverage),
              m.posterPath, m.overview, m.id in favorites, darkMode)
  }

  /** Since the root view passes the literal "N/A", every card shows exactly one "N/A" genre chip. */
  lemma CardsShowGenreNotAvailable(m: Movie, favorites: seq<int>, darkMode: bool)
    ensures Render(CardPropsOf(m, favorites, darkMode)).genreChips == ["N/A"]
  {
  }

  /** After toggling a movie's id, its card's heart is filled exactly when it was not before. */
  lemma HeartFollowsToggle(m: Movie, favorites: seq<int>, darkMode: bool)
    ensures Render(CardPropsOf(m, Favorites.Toggle(favorites, m.id), darkMode)).heart == '♥' <==> m.id !in favorites
  {
  }

  /** `loading ? … : error ? … : filteredMovies.length === 0 ? … : cards`. */
  function GridOf(loading: bool, error: Option<string>, visible: seq<Movie>,
                  favorites: seq<int>, darkMode: bool): (g: Grid)
    ensures g == LoadingMessage <==> loading
    ensures !loading && Truthy(error) ==> g == ErrorMessage(error.value)
    ensures g == NoMoviesFound <==> !loading && !Truthy(error) && visible == []
    ensures !loading && !Truthy(error) && visible != [] ==> g.Cards?
    ensures g.Cards? ==> |g.cards| == |visible| > 0
    ensures g.Cards? ==> forall i :: 0 <= i < |visible| ==> g.cards[i] == CardPropsOf(visible[i], favorites, darkMode)
  {
    if loading then LoadingMessage
    else if Truthy(error) then ErrorMessage(error.value)
    else if |visible| == 0 then NoMoviesFound
    else Cards(seq(|visible|, i requires 0 <= i < |visible| => CardPropsOf(visible[i], favorites, darkMode)))
  }

  /** What the detail modal shows of a movie (the IMDb link is not modelled). */
  datatype ModalView = ModalView(
    poster: Option<string>,
    title: Option<string>,
    year: string,
    rating: RatingText,
    language: Option<string>,
    overview: string)

  function ModalOf(m: Movie): (v: ModalView)
    ensures v.poster.Some? <==> Truthy(m.posterPath)
    ensures v.poster.Some? ==> v.poster == m.posterPath
    ensures v.overview != ""
    ensures v.overview == DescriptionText(m.overview)
    ensures v.year == YearText(m.releaseDate) && v.rating == RatingOf(m.voteAverage)
    ensures v.title == m.originalTitle && v.language == m.originalLanguage
  {
    ModalView(if Truthy(m.posterPath) then m.posterPath else None, m.originalTitle,
              YearText(m.releaseDate), RatingOf(m.voteAverage), m.originalLanguage,
              DescriptionText(m.overview))
  }

  /** The modal shows the same year, rating and overview as the movie's card. */
  lemma ModalAgreesWithCard(m: Movie, favorites: seq<int>, darkMode: bool)
    ensures var card := Render(CardPropsOf(m, favorites, darkMode));
      && ModalOf(m).year == card.year
      && ModalOf(m).rating == card.rating
      && ModalOf(m).overview == card.description
  {
  }

  class App {
    var movies: seq<Movie>
    var loading: bool
    var error: Option<string>
    var search: string
    var page: int
    var totalPages: int
    var darkMode: bool
    var modalMovie: Option<Movie>
    var favorites: seq<int>
    var showFavorites: bool
    var sortBy: string

    /**
     * The state on first render. `storedFavorites` is the stored favourites list
     * after `JSON.parse`, or `None` when nothing (or an empty string) is stored.
     */
    constructor (storedFavorites: Option<seq<int>>)
      ensures movies == [] && loading && error == None && search == ""
      ensures page == 1 && totalPages == 1 && !darkMode && modalMovie == None
      ensures favorites == (if storedFavorites.Some? then storedFavorites.value else [])
      ensures !showFavorites && sortBy == "title"
      ensures View() == LoadingMessage
    {
      movies := [];
      loading := true;
      error := None;
      search := "";
      page := 1;
      totalPages := 1;
      darkMode := false;
      modalMovie := None;
      favorites := if storedFavorites.Some? then storedFavorites.value else [];
      showFavorites := false;
      sortBy := "title";
    }

    /** The list the grid is built from, recomputed from the current state. */
    function Visible(): (r: seq<Movie>)
      reads this
      ensures forall m :: multiset(r)[m] == if Kept(m, search, showFavorites, favorites) then multiset(movies)[m] else 0
      ensures forall i :: 0 <= i < |r| ==> Kept(r[i], search, showFavorites, favorites)
      ensures r == VisibleMovies(movies, search, showFavorites, favorites, sortBy)
    {
      VisibleMovies(movies, search, showFavorites, favorites, sortBy)
    }

    /** What the grid shows for the current state. */
    function View(): (g: Grid)
      reads this
      ensures g == LoadingMessage <==> loading
      ensures !loading && Truthy(error) ==> g == ErrorMessage(error.value)
      ensures g == NoMoviesFound <==> !loading && !Truthy(error) && Visible() == []
      ensures !loading && !Truthy(error) && Visible() != [] ==> g.Cards?
      ensures g.Cards? ==> |g.cards| == |Visible()|
      ensures g.Cards? ==> forall i :: 0 <= i < |Visible()| ==> g.cards[i] == CardPropsOf(Visible()[i], favorites, darkMode)
    {
      GridOf(loading, error, Visible(), favorites, darkMode)
    }

    /** The string the dark-mode effect writes to storage. */
    function PersistedDarkMode(): (r: string)
      reads this
      ensures r == "true" <==> darkMode
      ensures forall prefersDark :: InitialDarkMode(Some(r), prefersDark) == darkMode
    {
      StoredDarkMode(darkMode)
    }

    /** The mount effect: the stored dark-mode value, or else the system preference. */
    method MountDarkMode(stored: Option<string>, prefersDark: bool)
      modifies this`darkMode
      ensures darkMode == InitialDarkMode(stored, prefersDark)
    {
      darkMode := InitialDarkMode(stored, prefersDark);
    }

    /** The fetch effect starts: loading, and no error. */
    method FetchStart()
      modifies this`loading, this`error
      ensures loading && error == None
      ensures View() == LoadingMessage
    {
      loading := true;
      error := None;
    }

    /** The request succeeded: take the movies and the page count from the body. */
    method FetchSuccess(body: Response)
      modifies this`movies, this`totalPages, this`loading
      ensures movies == MoviesOf(body)
      ensures totalPages == TotalPagesOf(body)
      ensures !loading
    {
      movies := MoviesOf(body);
      totalPages := TotalPagesOf(body);
      loading := false;
    }

    /** The request failed: record the message; the previous movies stay. */
    method FetchFailure(message: string)
      modifies this`error, this`loading
      ensures error == Some(message) && !loading
    {
      error := Some(message);
      loading := false;
    }

    /** One run of the fetch effect for the current page, settled with `outcome`. */
    method FetchPage(outcome: Outcome)
      modifies this`movies, this`totalPages, this`loading, this`error
      ensures !loading
      ensures outcome.Success? ==>
        error == None && movies == MoviesOf(outcome.body) && totalPages == TotalPagesOf(outcome.body)
      ensures outcome.Failure? ==>
        error == Some(outcome.message) && movies == old(movies) && totalPages == old(totalPages)
      ensures outcome.Failure? && outcome.message != "" ==> View() == ErrorMessage(outcome.message)
      ensures outcome.Failure? && outcome.message == "" && Visible() != [] ==> View().Cards?
    {
      FetchStart();
      match outcome
      case Success(body) => FetchSuccess(body);
      case Failure(message) => FetchFailure(message);
    }

    method ToggleFavorite(id: int)
      modifies this`favorites
      ensures favorites == Favorites.Toggle(old(favorites), id)
      ensures id in favorites <==> id !in old(favorites)
      ensures Favorites.Distinct(old(favorites)) ==> Favorites.Distinct(favorites)
    {
      favorites := Favorites.Toggle(favorites, id);
    }

    method HandlePrev()
      modifies this`page
      ensures page == PrevPage(old(page))
      ensures InRange(old(page), totalPages) ==> InRange(page, totalPages)
      ensures PrevDisabled(old(page)) ==> page == old(page)
    {
      page := PrevPage(page);
    }

    method HandleNext()
      modifies this`page
      ensures page == NextPage(old(page), totalPages)
      ensures InRange(old(page), totalPages) ==> InRange(page, totalPages)
      ensures NextDisabled(old(page), totalPages) ==> page == old(page)
    {
      page := NextPage(page, totalPages);
    }

    method ToggleDarkMode()
      modifies this`darkMode
      ensures darkMode == !old(darkMode)
    {
      darkMode := !darkMode;
    }

    method ToggleShowFavorites()
      modifies this`showFavorites
      ensures showFavorites == !old(showFavorites)
    {
      showFavorites := !showFavorites;
    }

    method SetSearch(text: string)
      modifies this`search
      ensures search == text
    {
      search := text;
    }

    method SetSortBy(key: string)
      modifies this`sortBy
      ensures sortBy == key
    {
      sortBy := key;
    }

    method OpenModal(m: Movie)
      modifies this`modalMovie
      ensures modalMovie == Some(m)
    {
      modalMovie := Some(m);
    }

    method CloseModal()
      modifies this`modalMovie
      ensures modalMovie == None
    {
      modalMovie := None;
    }
  }

  /**
   * The page is not kept within `[1, totalPages]` across fetches: after moving
   * to page 3 of 3, a response reporting 2 pages leaves the cursor on page 3.
   */
  method ShrinkingTotalScenario() returns (page: int, totalPages: int)
    ensures page == 3 && totalPages == 2 && !InRange(page, totalPages)
  {
    var app := new App(None);
    app.FetchPage(Success(Wrapped(Some([]), Some(3))));
    app.HandleNext();
    app.HandleNext();
    app.FetchPage(Success(Wrapped(Some([]), Some(2))));
    page, totalPages := app.page, app.totalPages;
  }

  /**
   * A negative page count passes `|| 1` unchanged: right after the fetch the
   * cursor, still on page 1, is outside `[1, totalPages]`, and the Previous and
   * Next controls are not rendered, so nothing can bring it back.
   */
  method NegativeTotalScenario() returns (page: int, totalPages: int)
    ensures page == 1 && totalPages == -1
    ensures !InRange(page, totalPages) && !PaginationShown(totalPages)
  {
    var app := new App(None);
    app.FetchPage(Success(Wrapped(Some([]), Some(-1))));
    page, totalPages := app.page, app.totalPages;
  }

  /** A failed fetch keeps the previous page's movies but shows the error instead of them. */
  method StaleMoviesScenario(items: seq<Movie>, message: string) returns (kept: seq<Movie>, shown: Grid)
    requires message != ""
    ensures kept == items
    ensures shown == ErrorMessage(message)
  {
    var app := new App(None);
    app.FetchPage(Success(BareArray(items)));
    app.FetchPage(Failure(message));
    kept, shown := app.movies, app.View();
  }

  /**
   * A failure with an empty message is falsy: the grid goes on showing the
   * previous page's movies as cards instead of an error.
   */
  method EmptyMessageScenario(items: seq<Movie>) returns (shown: Grid)
    requires items != [] && Titled(items[0])
    ensures shown.Cards?
  {
    var app := new App(None);
    app.FetchPage(Success(BareArray(items)));
    app.FetchPage(Failure(""));
    EmptySearchMatchesTitled(items[0]);
    assert items[0] in multiset(app.movies);
    assert items[0] in multiset(app.Visible());
    shown := app.View();
  }
}
