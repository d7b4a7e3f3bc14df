/** The table the dashboard loads from the gold layer of the lakehouse:
    one row per game, with the five columns the query selects. */
module Games {

  /** One row. `rating` and `playtime` are the query's floating-point columns,
      modelled as reals (only comparisons are needed); `released` is the
      already-parsed release date as a day number; `metacritic` is the
      integer Metacritic score. */
  datatype Game = Game(name: string, rating: real, metacritic: int, released: int, playtime: real)

  /** The loaded table, in the order the query returned it. */
  type Table = seq<Game>

  function Min(a: int, b: int): int
  {
    if a <= b then a else b
  }
}
