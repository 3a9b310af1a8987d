/** Route handlers under /api/favorites: a user's favorites, adding and
    removing a movie, and the favorite check. */
module FavoritesRouter {
  import opened Seqs
  import opened Models
  import opened Database
  import opened Http
  import MovieDao
  import FavoriteDao

  /** The page size the listing falls back to. */
  const DEFAULT_LIMIT := 100

  /** GET /api/favorites/users/{user_id}: the store's first page of the
      user's favorites, in row order. */
  function GetUserFavorites(db: Db, user_id: int): (r: seq<Favorite>)
    reads db
    ensures forall f :: f in r ==> f in db.favorites && f.user_id == user_id
    ensures |r| <= DEFAULT_LIMIT
    ensures var mine := Where(db.favorites, FavoriteUser, user_id);
            r == if |mine| <= DEFAULT_LIMIT then mine else mine[..DEFAULT_LIMIT]
  {
    FavoriteDao.GetUserFavorites(db, user_id, 0, DEFAULT_LIMIT)
  }

  /** Detail of the 400 answered when the pair is already a favorite. */
  const ALREADY_FAVORITE := "Already in favorites"

  /** POST /api/favorites/movies/{movie_id}: 404 for an unknown movie with
      favorites untouched, 400 for a pair already there, a 500 when the
      store refuses an unknown user; otherwise the new row. */
  method AddToFavorites(db: Db, movie_id: int, user_id: int) returns (r: Response<Favorite>)
    requires db.Valid()
    modifies db
    ensures db.Valid()
    ensures r == Err(404, "Movie not found") <==> movie_id !in old(db.MovieIds())
    ensures r == Err(400, ALREADY_FAVORITE) <==>
      movie_id in old(db.MovieIds()) && old(FavoriteDao.IsFavorite(db, movie_id, user_id))
    ensures r == Err(500, INTERNAL_SERVER_ERROR) <==>
      movie_id in old(db.MovieIds()) && !old(FavoriteDao.IsFavorite(db, movie_id, user_id))
      && user_id !in old(db.UserIds())
    ensures r.Err? ==> unchanged(db)
    ensures r.Ok? ==>
      && r.value.movie_id == movie_id && r.value.user_id == user_id
      && r.value.id !in old(db.FavoriteIds())
      && db.favorites == old(db.favorites) + [r.value]
      && db.users == old(db.users) && db.movies == old(db.movies)
      && db.reviews == old(db.reviews) && db.ratings == old(db.ratings)
    ensures movie_id in old(db.MovieIds()) && user_id in old(db.UserIds()) ==>
      FavoriteDao.IsFavorite(db, movie_id, user_id)
  {
    var movie := MovieDao.GetMovieById(db, movie_id);
    if movie.None? {
      return Err(404, "Movie not found");
    }
    var result := FavoriteDao.AddFavorite(db, movie_id, user_id);
    match result
    case AlreadyFavorite =>
      return Err(400, ALREADY_FAVORITE);
    case AddRefused =>
      return Err(500, INTERNAL_SERVER_ERROR);
    case Added(favorite) =>
      return Ok(favorite);
  }

  /** DELETE /api/favorites/movies/{movie_id}: the store's answer as is. */
  method RemoveFromFavorites(db: Db, movie_id: int, user_id: int) returns (removed: bool)
    requires db.Valid()
    modifies db
    ensures db.Valid()
    ensures removed <==> old(FavoriteDao.IsFavorite(db, movie_id, user_id))
    ensures !removed ==> unchanged(db)
    ensures removed ==>
      && db.favorites == WhereNot(old(db.favorites), FavoritePair, (movie_id, user_id))
      && |db.favorites| == |old(db.favorites)| - 1
      && (forall f :: f in db.favorites <==> f in old(db.favorites) && (f.movie_id, f.user_id) != (movie_id, user_id))
      && db.users == old(db.users) && db.movies == old(db.movies)
      && db.reviews == old(db.reviews) && db.ratings == old(db.ratings)
    ensures !FavoriteDao.IsFavorite(db, movie_id, user_id)
  {
    removed := FavoriteDao.RemoveFavorite(db, movie_id, user_id);
  }

  /** The body `{"is_favorite": b}`. */
  datatype FavoriteCheck = FavoriteCheck(is_favorite: bool)

  /** GET /api/favorites/movies/{movie_id}/users/{user_id}. */
  function CheckFavorite(db: Db, movie_id: int, user_id: int): (r: FavoriteCheck)
    reads db
    ensures r.is_favorite <==> exists f :: f in db.favorites && f.movie_id == movie_id && f.user_id == user_id
  {
    FavoriteCheck(FavoriteDao.IsFavorite(db, movie_id, user_id))
  }
}
