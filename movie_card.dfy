/**
 * The card for one movie: a stateless view of its props. It turns the genre
 * string into chips, picks the fallbacks for a missing description or poster,
 * draws the favourite heart, and routes a click either to `onFavorite` (the
 * heart, which stops the event there) or to `onClick` (anywhere else).
 */
module MovieCard {
  import opened Wrappers
  import opened JsString
  import opened Display

  /** A trimmed piece of comma-free text is comma-free. */
  lemma TrimKeepsCommaFree(piece: string)
    requires ',' !in piece
    ensures ',' !in Trim(piece)
  {
    var i :| OccursAt(piece, Trim(piece), i);
  }

  /** Trimming each of a list of comma-free pieces gives comma-free chips with no white space at either end. */
  lemma TrimmedPieces(pieces: seq<string>, chips: seq<string>)
    requires forall i :: 0 <= i < |pieces| ==> ',' !in pieces[i]
    requires |chips| == |pieces| && forall i :: 0 <= i < |chips| ==> chips[i] == Trim(pieces[i])
    ensures forall i :: 0 <= i < |chips| ==> ',' !in chips[i]
    ensures forall i :: 0 <= i < |chips| ==> chips[i] == [] || (!IsWhiteSpace(chips[i][0]) && !IsWhiteSpace(chips[i][|chips[i]| - 1]))
  {
    forall i | 0 <= i < |chips| ensures ',' !in chips[i] {
      TrimKeepsCommaFree(pieces[i]);
    }
  }

  /**
   * `genre && genre !== 'N/A' ? genre.split(',').map(g => g.trim()) : []`:
   * no chips for a missing, empty or "N/A" genre; otherwise one chip per
   * comma-separated piece, trimmed, so no chip holds a comma or starts or ends
   * with white space.
   */
  function GenreList(genre: Option<string>): (r: seq<string>)
    ensures !Truthy(genre) || genre.value == "N/A" ==> r == []
    ensures Truthy(genre) && genre.value != "N/A" ==>
      && |r| == multiset(genre.value)[','] + 1
      && forall i :: 0 <= i < |r| ==> r[i] == Trim(Split(genre.value, ',')[i])
    ensures forall i :: 0 <= i < |r| ==> ',' !in r[i]
    ensures forall i :: 0 <= i < |r| ==> r[i] == [] || (!IsWhiteSpace(r[i][0]) && !IsWhiteSpace(r[i][|r[i]| - 1]))
  {
    if Truthy(genre) && genre.value != "N/A" then
      var pieces := Split(genre.value, ',');
      var chips := seq(|pieces|, i requires 0 <= i < |pieces| => Trim(pieces[i]));
      TrimmedPieces(pieces, chips);
      chips
    else []
  }

  /** The genre cell: one "N/A" chip when there are no genres, otherwise the chips in order. */
  function GenreChips(genres: seq<string>): (r: seq<string>)
    ensures |r| >= 1
    ensures genres == [] ==> r == ["N/A"]
    ensures genres != [] ==> r == genres
  {
    if |genres| > 0 then genres else ["N/A"]
  }

  /** `description || 'No description available.'`: never an empty text. */
  function DescriptionText(description: Option<string>): (r: string)
    ensures r != ""
    ensures Truthy(description) ==> r == description.value
    ensures !Truthy(description) ==> r == "No description available."
  {
    if Truthy(description) then description.value else "No description available."
  }

  /** The poster slot: the image itself, or the "No Image" placeholder. */
  datatype Poster = Image(src: string) | NoImagePlaceholder

  function PosterOf(image: Option<string>): (r: Poster)
    ensures r.Image? <==> Truthy(image)
    ensures r.Image? ==> r.src == image.value
  {
    if Truthy(image) then Image(image.value) else NoImagePlaceholder
  }

  /** The heart on the favourite button: filled exactly for a favourite. */
  function HeartGlyph(isFavorite: bool): (r: char)
    ensures r == '♥' <==> isFavorite
    ensures r == '♥' || r == '♡'
  {
    if isFavorite then '♥' else '♡'
  }

  /** The favourite button's `aria-label`: it names the action a click would take. */
  function FavoriteLabel(isFavorite: bool): (r: string)
    ensures isFavorite ==> r == "Remove from favorites"
    ensures !isFavorite ==> r == "Add to favorites"
  {
    if isFavorite then "Remove from favorites" else "Add to favorites"
  }

  /** The props the root view passes to a card (the callbacks are modelled by `Dispatch`). */
  datatype CardProps = CardProps(
    title: Option<string>,
    genre: Option<string>,
    year: string,
    rating: RatingText,
    image: Option<string>,
    description: Option<string>,
    isFavorite: bool,
    darkMode: bool)

  /** What a card shows. */
  datatype CardView = CardView(
    heart: char,
    favoriteLabel: string,
    poster: Poster,
    title: Option<string>,
    description: string,
    year: string,
    genreChips: seq<string>,
    rating: RatingText)

  function Render(props: CardProps): (v: CardView)
    ensures v.heart == '♥' <==> props.isFavorite
    ensures v.heart == HeartGlyph(props.isFavorite)
    ensures v.favoriteLabel == "Remove from favorites" <==> props.isFavorite
    ensures v.poster.Image? <==> Truthy(props.image)
    ensures v.description != ""
    ensures |v.genreChips| >= 1
    ensures v.genreChips == GenreChips(GenreList(props.genre))
    ensures v.description == DescriptionText(props.description)
    ensures v.poster == PosterOf(props.image)
    ensures v.favoriteLabel == FavoriteLabel(props.isFavorite)
    ensures v.year == props.year && v.rating == props.rating && v.title == props.title
  {
    CardView(
      HeartGlyph(props.isFavorite),
      FavoriteLabel(props.isFavorite),
      PosterOf(props.image),
      props.title,
      DescriptionText(props.description),
      props.year,
      GenreChips(GenreList(props.genre)),
      props.rating)
  }

  /** Where on the card a click lands. */
  datatype ClickTarget = FavoriteButton | CardBody

  /** The elements with a click listener, innermost first. */
  datatype Element = HeartButton | CardRoot

  /** The callbacks a click can reach. */
  datatype Callback = OnFavorite | OnClick

  /** The elements a click passes through while it bubbles up: the heart button sits inside the card. */
  function BubblePath(target: ClickTarget): (r: seq<Element>)
    ensures r != [] && r[|r| - 1] == CardRoot
    ensures HeartButton in r <==> target == FavoriteButton
    ensures target == FavoriteButton ==> r[0] == HeartButton
  {
    match target
    case FavoriteButton => [HeartButton, CardRoot]
    case CardBody => [CardRoot]
  }

  /** What one element's click listener does: the callbacks it calls and whether it stops propagation. */
  datatype Listener = Listener(calls: seq<Callback>, stops: bool)

  /**
   * The heart's listener calls `stopPropagation()` and then
   * `onFavorite && onFavorite()`; the card's listener is `onClick` itself.
   */
  function ListenerOf(e: Element, hasOnFavorite: bool, hasOnClick: bool): (l: Listener)
    ensures l.stops <==> e == HeartButton
    ensures |l.calls| <= 1
    ensures OnFavorite in l.calls <==> e == HeartButton && hasOnFavorite
    ensures OnClick in l.calls <==> e == CardRoot && hasOnClick
  {
    match e
    case HeartButton => Listener(if hasOnFavorite then [OnFavorite] else [], true)
    case CardRoot => Listener(if hasOnClick then [OnClick] else [], false)
  }

  /** Runs the listeners along the path in order until one stops propagation. */
  function Bubble(path: seq<Element>, hasOnFavorite: bool, hasOnClick: bool): (r: seq<Callback>)
    ensures forall k :: 0 <= k < |r| ==> (r[k] == OnFavorite ==> hasOnFavorite) && (r[k] == OnClick ==> hasOnClick)
    ensures path != [] && ListenerOf(path[0], hasOnFavorite, hasOnClick).stops ==>
      r == ListenerOf(path[0], hasOnFavorite, hasOnClick).calls
    decreases |path|
  {
    if path == [] then []
    else
      var listener := ListenerOf(path[0], hasOnFavorite, hasOnClick);
      listener.calls + (if listener.stops then [] else Bubble(path[1..], hasOnFavorite, hasOnClick))
  }

  /** The callbacks one click invokes, in order. */
  function Dispatch(target: ClickTarget, hasOnFavorite: bool, hasOnClick: bool): (r: seq<Callback>)
    ensures target == FavoriteButton ==> r == (if hasOnFavorite then [OnFavorite] else [])
    ensures target == CardBody ==> r == (if hasOnClick then [OnClick] else [])
  {
    assert [CardRoot][1..] == [];
    Bubble(BubblePath(target), hasOnFavorite, hasOnClick)
  }

  /** A click on the heart never reaches the card's `onClick`; a click elsewhere never reaches `onFavorite`. */
  lemma ClickReachesOneCallback(target: ClickTarget, hasOnFavorite: bool, hasOnClick: bool)
    ensures OnClick in Dispatch(target, hasOnFavorite, hasOnClick) <==> target == CardBody && hasOnClick
    ensures OnFavorite in Dispatch(target, hasOnFavorite, hasOnClick) <==> target == FavoriteButton && hasOnFavorite
  {
  }
}
