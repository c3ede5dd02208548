/**
 * Small display decisions of the root view: the dark-mode value at start-up,
 * the stored form of that flag, and the "N/A" sentinels for year and rating.
 */
module Display {
  import opened Wrappers
  import opened JsString

  /**
   * The dark-mode flag on mount: a stored value decides (only the string
   * `"true"` means dark); with nothing stored, the system preference does.
   */
  function InitialDarkMode(stored: Option<string>, prefersDark: bool): (r: bool)
    ensures stored.Some? ==> (r <==> stored.value == "true")
    ensures stored.None? ==> r == prefersDark
  {
    if stored.Some? then stored.value == "true" else prefersDark
  }

  /** What `localStorage.setItem('darkMode', darkMode)` stores: the boolean as a string. */
  function StoredDarkMode(darkMode: bool): (r: string)
    ensures r == "true" <==> darkMode
  {
    if darkMode then "true" else "false"
  }

  /** A stored flag is read back as the same flag on the next start, whatever the system prefers. */
  lemma DarkModeSurvivesReload(darkMode: bool, prefersDark: bool)
    ensures InitialDarkMode(Some(StoredDarkMode(darkMode)), prefersDark) == darkMode
  {
  }

  /**
   * `release_date ? release_date.split('-')[0] : 'N/A'`: a missing or empty
   * date shows "N/A", any other shows the text before its first `-`.
   */
  function YearText(releaseDate: Option<string>): (r: string)
    ensures !Truthy(releaseDate) ==> r == "N/A"
    ensures Truthy(releaseDate) ==> var d := releaseDate.value;
      && |r| <= |d| && r == d[..|r|]
      && '-' !in r
      && (|r| == |d| || d[|r|] == '-')
  {
    if Truthy(releaseDate) then
      SplitFirstPiece(releaseDate.value, '-');
      Split(releaseDate.value, '-')[0]
    else "N/A"
  }

  /** A date without any `-` is shown whole. */
  lemma YearOfDateWithoutDash(d: string)
    requires d != [] && '-' !in d
    ensures YearText(Some(d)) == d
  {
  }

  /** A date whose first `-` is at index 4 shows its first four characters. */
  lemma YearOfDashAtFour(d: string)
    requires |d| > 4 && d[4] == '-' && '-' !in d[..4]
    ensures YearText(Some(d)) == d[..4]
  {
    var r := YearText(Some(d));
    assert r == d[..|r|];
  }

  /** An ISO date shows its four-digit year. */
  lemma YearOfIsoDate()
    ensures YearText(Some("1999-03-31")) == "1999"
  {
    var d := "1999-03-31";
    assert d[..4] == "1999";
    YearOfDashAtFour(d);
  }

  /** What a rating shows: the number, or the "N/A" sentinel. */
  datatype RatingText = Score(value: int) | NotAvailable

  /** `vote_average || 'N/A'`: a missing or zero rating shows "N/A". */
  function RatingOf(voteAverage: Option<int>): (r: RatingText)
    ensures r == NotAvailable <==> voteAverage.None? || voteAverage.value == 0
    ensures r.Score? ==> voteAverage == Some(r.value) && r.value != 0
  {
    if voteAverage.Some? && voteAverage.value != 0 then Score(voteAverage.value) else NotAvailable
  }
}
