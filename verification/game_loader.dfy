/** The background loader's only logic: no URL, no request. */
module GameLoader {
  import opened Wrappers
  import opened Json
  import opened GamesRecord
  import opened QueryUtils

  /**
   * `loadInBackground`: null for a null URL, otherwise whatever
   * `fetchGamesData` returns for it.
   */
  method LoadInBackground(url: Option<string>, isWellFormed: string -> bool,
                          exchange: Exchange, parse: string -> Option<Json>)
    returns (game: Option<seq<Games>>)
    ensures url.None? ==> game.None?
    ensures url.Some? ==> game == FetchedGames(url, isWellFormed, exchange, parse)
  {
    if url.None? {
      return None;
    }
    game := FetchGamesData(url, isWellFormed, exchange, parse);
  }
}
