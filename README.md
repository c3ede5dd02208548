# Movie browser view-state model

A Dafny model of the view-state logic of a small React movie browser. The root view (`App`) fetches one page of movies at a time and keeps the list, the page cursor, loading and error flags, the search text, the sort key, the favourites list, the dark-mode flag and the movie open in the detail modal. On every render it derives the visible list from that state. The card view (`MovieCard`) renders one movie from its props and routes clicks back to the root.

Modules:

- `Wrappers`: `Option` for fields that may be missing, and JavaScript truthiness of an optional string.
- `JsString`: the host string methods the views call: `toLowerCase` (ASCII letters only), `includes`, `localeCompare` (modelled as lexicographic order of Unicode code points), `trim` (with the exact ECMAScript white-space set), and `split` on one character, with `Join` as its inverse.
- `Movies`: the movie record, the two response shapes, the title filter and the favourites filter, the sort comparator, a stable insertion sort standing for `Array.prototype.sort`, and the visible list.
- `Favorites`: `toggleFavorite`.
- `Paging`: the Previous and Next steps and when their buttons are disabled.
- `Display`: the dark-mode start value, the stored form of that flag, and the "N/A" sentinels for year and rating.
- `MovieCard`: genre chips, the description, poster and heart fallbacks, the card's rendered view, and click bubbling with `stopPropagation`.
- `AppState`: the props the root passes to each card, what the grid and the modal show, and the class `App`. Its fields are the component's state; its methods are the effects and event handlers that set them.

Ratings are integers. Ids are integers. The network, storage and system colour-scheme preference are passed in as parameters.

Where the code and the written design disagree, the model follows the code:

- The design says the page always stays within `[1, totalPages]`. The code does not keep that when a fetch reports fewer pages than the current page (`AppState.ShrinkingTotalScenario`). It also fails when the server reports a negative count: page 1 is then already outside the range, and the page controls are hidden (`AppState.NegativeTotalScenario`).
- The design says a failure records a non-empty error string. The code stores whatever `err.message` is. An empty message is falsy, so in that case the grid shows no error: it shows the old movies when some of them are visible, and "No movies found." otherwise (`AppState.GridOf`, `AppState.EmptyMessageScenario`).
- The design calls favourites a set. The code keeps a list. Toggling twice gives back the same members. It is guaranteed to give back the exact list only when the id was absent at first; a present id moves to the end and loses its duplicate copies (`Favorites.ToggleTwiceMayReorder`).

## Model

| member | source | states |
|---|---|---|
| `Wrappers.Truthy` | movie-database-app/src/App.jsx:139 | a present, non-empty string is truthy; a missing or empty one is not (also movie-database-app/src/App.jsx:149 and movie-database-app/src/MovieCard.jsx:5, 28, 42) |
| `JsString.ToLower` | movie-database-app/src/App.jsx:70 | same length; each character lower-cased (ASCII letters only) |
| `JsString.LowerChar` | movie-database-app/src/App.jsx:70 | the result is never an upper-case ASCII letter; letters move by 32, everything else is unchanged |
| `JsString.ToLowerIdempotent` | movie-database-app/src/App.jsx:70 | lower-casing twice equals lower-casing once |
| `JsString.Includes` | movie-database-app/src/App.jsx:70 | `s.includes(t)` holds exactly when `t` occurs at some offset of `s` |
| `JsString.IncludesStep` | movie-database-app/src/App.jsx:70 | when `t` is not a prefix of a longer `s`, it occurs in `s` exactly when it occurs in the tail of `s` |
| `JsString.EmptyIncludedEverywhere` | movie-database-app/src/App.jsx:70 | every string includes the empty string |
| `JsString.LocaleCompare` | movie-database-app/src/App.jsx:77 | the result is -1, 0 or 1, and is 0 exactly when the strings are equal |
| `JsString.LocaleCompareAntisymmetric` | movie-database-app/src/App.jsx:77 | swapping the arguments negates the result |
| `JsString.LocaleCompareTransitive` | movie-database-app/src/App.jsx:77 | "sorts no later than" is transitive |
| `JsString.IsWhiteSpace` | movie-database-app/src/MovieCard.jsx:5 | the ECMAScript WhiteSpace and LineTerminator characters `trim` removes: space, tab, line feed and carriage return among them; never a comma, a dash, a letter or a digit |
| `JsString.SkipWhiteSpace` | movie-database-app/src/MovieCard.jsx:5 | the index of the first character at or after the start that is not white space; everything skipped is white space |
| `JsString.BackOverWhiteSpace` | movie-database-app/src/MovieCard.jsx:5 | the end of a range once its trailing white space is dropped; everything dropped is white space |
| `JsString.Trim` | movie-database-app/src/MovieCard.jsx:5 | a run of consecutive characters of the input with only white space before and after it, that neither starts nor ends with white space; empty exactly when the input is all white space |
| `JsString.TrimCharacterised` | movie-database-app/src/MovieCard.jsx:5 | any run with only white space around it and no white space at its ends is the trimmed string, so the contract fixes the result |
| `JsString.TrimIdempotent` | movie-database-app/src/MovieCard.jsx:5 | trimming twice equals trimming once |
| `JsString.Split` | movie-database-app/src/MovieCard.jsx:5 | one more piece than separators; no piece holds the separator |
| `JsString.JoinSplit` | movie-database-app/src/MovieCard.jsx:5 | joining the pieces with the separator gives the input back |
| `JsString.SplitJoin` | movie-database-app/src/MovieCard.jsx:5 | splitting a join of separator-free pieces gives those pieces back |
| `JsString.SplitWithoutSeparator` | movie-database-app/src/MovieCard.jsx:5 | text without the separator splits into itself alone |
| `JsString.SplitFirstPiece` | movie-database-app/src/App.jsx:149 | the first piece is the prefix before the first separator, or the whole text |
| `Movies.MoviesOf` | movie-database-app/src/App.jsx:53-55 | a bare array is the list; an object gives `data` when present, else the empty list |
| `Movies.TotalPagesOf` | movie-database-app/src/App.jsx:56 | never 0; 1 for a bare array; 1 for an object whose count is missing or zero; otherwise the reported count |
| `Movies.ResponseShapesAgree` | movie-database-app/src/App.jsx:54-56 | a bare array and `{data: array}` give the same movies and one page |
| `Movies.TitleMatches` | movie-database-app/src/App.jsx:70 | the filter callback: only a titled movie matches, and then exactly when its lower-cased title includes the lower-cased search |
| `Movies.TitleFiltered` | movie-database-app/src/App.jsx:69-71 | exactly the matching movies, each as often as in the input; every kept movie has a title containing the search text, ignoring case; an all-matching list is kept as it is; a single movie is kept exactly when it matches |
| `Movies.FavoriteFiltered` | movie-database-app/src/App.jsx:72-74 | exactly the movies whose id is a favourite, each as often as in the input; a single movie is kept exactly when it is a favourite |
| `Movies.TitleFilteredAppend` | movie-database-app/src/App.jsx:69-71 | filtering a concatenation concatenates the filtered parts, so the kept movies stay in input order |
| `Movies.TitleFilteredCons` | movie-database-app/src/App.jsx:69-71 | the head is kept in front exactly when it matches, then the filtered tail |
| `Movies.FavoriteFilteredAppend` | movie-database-app/src/App.jsx:72-74 | filtering a concatenation concatenates the filtered parts, so the kept movies stay in input order |
| `Movies.FavoriteFilteredCons` | movie-database-app/src/App.jsx:72-74 | the head is kept in front exactly when it is a favourite, then the filtered tail |
| `Movies.FilteredAppend` | movie-database-app/src/App.jsx:69-74 | both filters together keep the input order |
| `Movies.Kept` | movie-database-app/src/App.jsx:69-74 | a kept movie matches the title; with favourites-only it must be a favourite; otherwise the title match alone decides |
| `Movies.Filtered` | movie-database-app/src/App.jsx:69-74 | exactly the movies that match the title and, when only favourites are shown, are favourites; a single movie is kept exactly when it passes both |
| `Movies.RatingKey` | movie-database-app/src/App.jsx:79 | `vote_average || 0`: the rating when present, 0 when missing |
| `Movies.Compare` | movie-database-app/src/App.jsx:75-82 | by title: the order of `localeCompare`; by rating: the higher rating (missing counts as 0) first; any other key: every pair equal |
| `Movies.CompareAntisymmetric` | movie-database-app/src/App.jsx:75-82 | swapping the movies negates the comparator |
| `Movies.CompareTransitive` | movie-database-app/src/App.jsx:75-82 | "goes no later than" is transitive under every key |
| `Movies.Insert` | movie-database-app/src/App.jsx:75 | inserting into a sorted list gives a sorted list with the one movie added |
| `Movies.InsertBehind` | movie-database-app/src/App.jsx:75 | when the new movie goes after the head, the head followed by the sorted rest is sorted |
| `Movies.SortMovies` | movie-database-app/src/App.jsx:75 | a permutation of the input, in comparator order |
| `Movies.SortUnrecognizedKeyIsIdentity` | movie-database-app/src/App.jsx:81 | with a key other than "title" or "rating" the stable sort leaves the list unchanged |
| `Movies.VisibleMovies` | movie-database-app/src/App.jsx:69-82 | exactly the kept movies, each as often as in `movies`; all titled and matching the search; all favourites when only favourites are shown; in ascending title order for "title", non-increasing rating for "rating"; the title comparator only ever sees titled movies |
| `Movies.PermutationKeepsKept` | movie-database-app/src/App.jsx:75 | sorting a filtered list keeps every element kept |
| `Movies.SortedOrder` | movie-database-app/src/App.jsx:76-79 | comparator order means ascending titles under "title" and non-increasing ratings under "rating" |
| `Movies.UnrecognizedKeyKeepsOrder` | movie-database-app/src/App.jsx:75-82 | with an unrecognised key the visible list is the filtered list in its original order |
| `Movies.NoFavoritesShowsNothing` | movie-database-app/src/App.jsx:72-74 | favourites-only with no favourites shows nothing, whatever the search |
| `Movies.EmptySearchMatchesTitled` | movie-database-app/src/App.jsx:69-71 | the empty search matches exactly the movies that have a title |
| `Movies.EmptySearchKeepsTitled` | movie-database-app/src/App.jsx:69-71 | the empty search keeps every titled movie as often as it occurs, and drops the untitled ones |
| `Movies.SearchIgnoresCase` | movie-database-app/src/App.jsx:70 | lower-casing the search text first does not change which movies match |
| `Movies.UpperCaseSearchFindsTitle` | movie-database-app/src/App.jsx:70 | searching "THE" matches "The Matrix" |
| `Movies.TitleSortExample` | movie-database-app/src/App.jsx:76-77 | titles "B", "A" sort to "A", "B" |
| `Movies.RatingSortExample` | movie-database-app/src/App.jsx:78-79 | ratings 5, 8, missing sort to 8, 5, missing |
| `Favorites.Without` | movie-database-app/src/App.jsx:88 | every copy of the id is gone; other ids keep their counts; a distinct list stays distinct |
| `Favorites.WithoutStep` | movie-database-app/src/App.jsx:88 | one filter step: dropping or keeping the head preserves the count, membership and distinctness facts |
| `Favorites.Toggle` | movie-database-app/src/App.jsx:87-89 | the id's membership flips; it ends up with at most one copy; every other id keeps its count; a distinct list stays distinct |
| `Favorites.ToggleTwiceSameMembers` | movie-database-app/src/App.jsx:87-89 | toggling the same id twice gives back the same members |
| `Favorites.ToggleTwiceRestoresList` | movie-database-app/src/App.jsx:87-89 | for an id that was not a favourite, toggling twice gives back the very same list |
| `Favorites.WithoutAppend` | movie-database-app/src/App.jsx:88 | removing an id from a concatenation removes it from each part, so the remaining ids keep their order |
| `Favorites.WithoutAppended` | movie-database-app/src/App.jsx:88 | removing an appended id that was absent before gives the list before the append |
| `Favorites.ToggleTwiceMayReorder` | movie-database-app/src/App.jsx:88 | toggling 1 twice in `[1, 2]` gives `[2, 1]` |
| `Paging.PrevPage` | movie-database-app/src/App.jsx:84 | never below 1; one less above page 1; 1 otherwise |
| `Paging.NextPage` | movie-database-app/src/App.jsx:85 | never above `totalPages`; one more below it; `totalPages` otherwise |
| `Paging.PrevDisabled` | movie-database-app/src/App.jsx:166 | when Previous is disabled, a Previous step would leave the page where it is |
| `Paging.NextDisabled` | movie-database-app/src/App.jsx:174 | when Next is disabled, a Next step would leave the page where it is |
| `Paging.PaginationShown` | movie-database-app/src/App.jsx:162 | when the controls are shown, page 1 is in range and Next is enabled on it |
| `Paging.StepsStayInRange` | movie-database-app/src/App.jsx:84-85 | from a page in `[1, totalPages]` both steps stay in range |
| `Paging.PrevNoOpExactlyWhenDisabled` | movie-database-app/src/App.jsx:166 | within range, Previous leaves the page where it is exactly when its button is disabled |
| `Paging.NextNoOpExactlyWhenDisabled` | movie-database-app/src/App.jsx:174 | within range, Next leaves the page where it is exactly when its button is disabled |
| `Paging.NextReturnsIntoRange` | movie-database-app/src/App.jsx:85 | a page beyond a positive `totalPages` goes back to the last page on Next |
| `Display.InitialDarkMode` | movie-database-app/src/App.jsx:24-32 | a stored value gives dark exactly when it is "true"; with nothing stored, the system preference |
| `Display.StoredDarkMode` | movie-database-app/src/App.jsx:36 | the stored string is "true" exactly for dark mode |
| `Display.DarkModeSurvivesReload` | movie-database-app/src/App.jsx:24-37 | a stored flag is read back unchanged on the next start, whatever the system prefers |
| `Display.YearText` | movie-database-app/src/App.jsx:149 | "N/A" for a missing or empty date; otherwise the prefix before the first `-`, or the whole date |
| `Display.YearOfDateWithoutDash` | movie-database-app/src/App.jsx:149 | a date without `-` is shown whole |
| `Display.YearOfDashAtFour` | movie-database-app/src/App.jsx:149 | a date whose first `-` is at index 4 shows its first four characters |
| `Display.YearOfIsoDate` | movie-database-app/src/App.jsx:149 | "1999-03-31" shows "1999" |
| `Display.RatingOf` | movie-database-app/src/App.jsx:150 | "N/A" exactly for a missing or zero rating; otherwise the rating itself |
| `MovieCard.TrimKeepsCommaFree` | movie-database-app/src/MovieCard.jsx:5 | trimming comma-free text gives comma-free text |
| `MovieCard.TrimmedPieces` | movie-database-app/src/MovieCard.jsx:5 | trimming comma-free pieces gives comma-free chips with no white space at either end |
| `MovieCard.GenreList` | movie-database-app/src/MovieCard.jsx:5 | no chips for a missing, empty or "N/A" genre; otherwise commas plus one chips, chip i the trimmed i-th piece; no chip holds a comma or starts or ends with white space |
| `MovieCard.GenreChips` | movie-database-app/src/MovieCard.jsx:51-62 | one "N/A" chip when there are no genres, otherwise the genres in order |
| `MovieCard.DescriptionText` | movie-database-app/src/MovieCard.jsx:42 | the description when truthy, else "No description available."; never empty |
| `MovieCard.PosterOf` | movie-database-app/src/MovieCard.jsx:28-39 | the image exactly when the URL is truthy, else the "No Image" placeholder |
| `MovieCard.FavoriteLabel` | movie-database-app/src/MovieCard.jsx:18 | "Remove from favorites" for a favourite, "Add to favorites" otherwise |
| `MovieCard.HeartGlyph` | movie-database-app/src/MovieCard.jsx:21-25 | filled heart exactly for a favourite, hollow otherwise |
| `MovieCard.Render` | movie-database-app/src/MovieCard.jsx:3-75 | the heart is `HeartGlyph(isFavorite)`, filled exactly for a favourite, and its label follows `isFavorite`; the poster is `PosterOf` the image URL; the description is `DescriptionText` of the prop, never empty; the chips are `GenreChips(GenreList(genre))`, at least one; year, rating and title are passed through |
| `MovieCard.BubblePath` | movie-database-app/src/MovieCard.jsx:11-16 | every click ends at the card's root; it passes the heart button exactly when it lands on it, and then starts there |
| `MovieCard.ListenerOf` | movie-database-app/src/MovieCard.jsx:11-16 | only the heart's listener stops propagation; each listener calls at most one callback, the heart `onFavorite` and the card `onClick`, when present |
| `MovieCard.Bubble` | movie-database-app/src/MovieCard.jsx:11-16 | only callbacks that are present run; a stopping first listener ends the walk after its own calls |
| `MovieCard.Dispatch` | movie-database-app/src/MovieCard.jsx:11-16 | a heart click runs `onFavorite` alone; a click elsewhere runs `onClick` alone |
| `MovieCard.ClickReachesOneCallback` | movie-database-app/src/MovieCard.jsx:16 | `onClick` runs exactly for clicks off the heart; `onFavorite` exactly for clicks on it |
| `AppState.CardPropsOf` | movie-database-app/src/App.jsx:145-157 | title, poster URL, description and dark mode are the movie's own and the view's; `isFavorite` is membership of the id; the genre is "N/A"; year and rating use the sentinels |
| `AppState.CardsShowGenreNotAvailable` | movie-database-app/src/App.jsx:148 | every card shows exactly one "N/A" genre chip |
| `AppState.HeartFollowsToggle` | movie-database-app/src/App.jsx:153-154 | after toggling a movie, its heart is filled exactly when it was not a favourite before |
| `AppState.GridOf` | movie-database-app/src/App.jsx:137-159 | loading first; then a truthy error; then "No movies found." for an empty list; otherwise cards, one per visible movie, in order |
| `AppState.ModalOf` | movie-database-app/src/App.jsx:192-199 | the poster shows exactly for a truthy URL, and is that URL; the overview is the movie's, or "No description available.", never empty; year and rating use the sentinels; title and language are passed through |
| `AppState.ModalAgreesWithCard` | movie-database-app/src/App.jsx:196-199 | the modal shows the same year, rating and overview as the card |
| `AppState.App.Visible` | movie-database-app/src/App.jsx:69-82 | the visible list of the current state, with the full contract of `Movies.VisibleMovies`: exactly the kept movies, each as often as among the fetched movies, in the order the sort key asks |
| `AppState.App.View` | movie-database-app/src/App.jsx:137-159 | the grid for the current state: loading, then a truthy error, then "No movies found." for an empty visible list, otherwise cards, exactly one per visible movie in order, with `CardPropsOf` of that movie |
| `AppState.App.PersistedDarkMode` | movie-database-app/src/App.jsx:35-37 | the stored string is "true" exactly in dark mode, and reading it back on start gives the same flag |
| `AppState.App.constructor` | movie-database-app/src/App.jsx:8-21 | the initial state; favourites from storage or empty; the grid shows loading |
| `AppState.App.MountDarkMode` | movie-database-app/src/App.jsx:24-32 | sets only the dark-mode flag, to the start value |
| `AppState.App.FetchStart` | movie-database-app/src/App.jsx:45-46 | loading set, error cleared, nothing else changed; the grid shows loading |
| `AppState.App.FetchSuccess` | movie-database-app/src/App.jsx:52-57 | movies and page count from the body, loading cleared, nothing else changed |
| `AppState.App.FetchFailure` | movie-database-app/src/App.jsx:62-65 | error set to the message, loading cleared, movies and page count untouched |
| `AppState.App.FetchPage` | movie-database-app/src/App.jsx:44-66 | after success: no error, the body's movies and page count; after failure: the message, the old movies and page count, the error in the grid when the message is non-empty, and cards when it is empty and the list is not |
| `AppState.App.ToggleFavorite` | movie-database-app/src/App.jsx:87-89 | only the favourites change, as `Favorites.Toggle` says |
| `AppState.App.HandlePrev` | movie-database-app/src/App.jsx:84 | only the page changes; it stays in range; a no-op where the button is disabled |
| `AppState.App.HandleNext` | movie-database-app/src/App.jsx:85 | only the page changes; it stays in range; a no-op where the button is disabled |
| `AppState.App.ToggleDarkMode` | movie-database-app/src/App.jsx:98 | flips only the dark-mode flag |
| `AppState.App.ToggleShowFavorites` | movie-database-app/src/App.jsx:112 | flips only the favourites-only flag |
| `AppState.App.SetSearch` | movie-database-app/src/App.jsx:132 | sets only the search text |
| `AppState.App.SetSortBy` | movie-database-app/src/App.jsx:119 | sets only the sort key |
| `AppState.App.OpenModal` | movie-database-app/src/App.jsx:155 | sets only the modal movie |
| `AppState.App.CloseModal` | movie-database-app/src/App.jsx:186 | clears only the modal movie and does not fetch |
| `AppState.ShrinkingTotalScenario` | movie-database-app/src/App.jsx:56 | after page 3 of 3, a response with 2 pages leaves page 3, outside `[1, totalPages]` |
| `AppState.NegativeTotalScenario` | movie-database-app/src/App.jsx:56 | a reported count of -1 is kept; page 1 is then outside `[1, totalPages]` and the page controls are hidden |
| `AppState.StaleMoviesScenario` | movie-database-app/src/App.jsx:62-65 | after a failure the previous movies are still held, while the grid shows the error |
| `AppState.EmptyMessageScenario` | movie-database-app/src/App.jsx:62-65 | a failure with an empty message after a page with a titled movie leaves the grid showing cards |

## Left out

- The HTTP request itself is not modelled: the `axios` call, the URL with its `page` and `limit` parameters, the page-size constant and `console.log`. A request's outcome is an input to `AppState.App.FetchPage`.
- The fetch effect runs once on mount and again only when `page` actually changes. The model does not run it automatically: a caller invokes `FetchPage` on mount and after a `HandlePrev` or `HandleNext` that changes the page. A step that leaves the page where it is fetches nothing.
- Overlapping requests are not modelled. A slow response for an older page can overwrite newer data, but this depends on the order of asynchronous events, and the model settles one request at a time.
- A response body of `null` is not modelled. Reading `data.data` then throws inside the success handler, so it ends on the failure path with a host-defined message.
- `localStorage` is not modelled, and neither is `JSON.parse`/`JSON.stringify` of the favourites. The parsed favourites list is an input to the constructor. The stored dark-mode string is an input to `MountDarkMode`, and `Display.StoredDarkMode` gives the string that would be written.
- `window.matchMedia` becomes the boolean `prefersDark`.
- JSX layout, CSS classes, SVG icons and most labels are not modelled. This covers the dark-mode button text, the "★ Favorites" label, the hollow heart's colour, and the hidden pagination when there is one page (`Paging.PaginationShown` only states the condition). The heart's `aria-label` is modelled (`MovieCard.FavoriteLabel`); the other `aria-label`s are not.
- The IMDb link and its `encodeURIComponent` are not modelled.
- The image `onError` handler is not modelled. It hides a broken poster, which is a DOM effect.
- JsString.LocaleCompare: locale-aware collation is not modelled; it is lexicographic order of code points, a total order (real collation may call distinct strings equal).
- JsString: a Dafny string is a sequence of Unicode scalar values, while a JavaScript string is a sequence of UTF-16 code units. So code-point order differs from code-unit order where a character above U+FFFF meets one in U+E000–U+FFFF. Lone surrogates cannot be represented, and `includes` and `split` work on code points.
- JsString.ToLower: only `A`-`Z` are lower-cased; Unicode case mapping is host-library behaviour.
- Movies.Movie: `vote_average` is an integer, not an IEEE double (no fractions, no NaN); ids are integers; a title that is present but not a string (on which `toLowerCase` would throw) is not representable.
- Movies.SortMovies: JavaScript's sort is stable and so is the insertion sort, but stability among equal keys is stated only for an unrecognised key (`SortUnrecognizedKeyIsIdentity`).
- AppState.App.FetchFailure: an error without a `message` (which leaves `error` undefined) is not represented; the message is a string, possibly empty.
- React's rendering and batching are not modelled: each handler is one atomic update of the fields it sets.
