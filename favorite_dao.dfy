/** FavoriteDAO: the per-user listing, the existence check, adding with
    de-duplication, removal, and lookup by id. */
module FavoriteDao {
  import opened Seqs
  import opened Models
  import opened Database

  /** A user's favorites, paged: the page is a slice, taken at the offset,
      of the user's favorites in row order. */
  function GetUserFavorites(db: Db, user_id: int, skip: int, limit: int): (r: seq<Favorite>)
    reads db
    ensures forall f :: f in r ==> f in db.favorites && f.user_id == user_id
    ensures limit >= 0 ==> |r| <= limit
    ensures var mine := Where(db.favorites, FavoriteUser, user_id);
            && |r| == PageSize(|mine|, skip, limit)
            && (forall i :: 0 <= i < |r| ==>
                  Offset(|mine|, skip) + i < |mine| && r[i] == mine[Offset(|mine|, skip) + i])
            && (skip <= 0 && (limit < 0 || |mine| <= limit) ==> r == mine)
    ensures skip <= 0 && limit < 0 ==> forall f :: f in db.favorites && f.user_id == user_id ==> f in r
  {
    Page(Where(db.favorites, FavoriteUser, user_id), skip, limit)
  }

  function FindFavorite(db: Db, movie_id: int, user_id: int): (r: Option<Favorite>)
    reads db
    ensures r.None? <==> forall f :: f in db.favorites ==> f.movie_id != movie_id || f.user_id != user_id
    ensures r.Some? ==> r.value in db.favorites && r.value.movie_id == movie_id && r.value.user_id == user_id
  {
    First(db.favorites, (f: Favorite) => f.movie_id == movie_id && f.user_id == user_id)
  }

  function IsFavorite(db: Db, movie_id: int, user_id: int): (b: bool)
    reads db
    ensures b <==> exists f :: f in db.favorites && f.movie_id == movie_id && f.user_id == user_id
  {
    FindFavorite(db, movie_id, user_id).Some?
  }

  /** What adding a favorite did: added a row, found the pair already there
      (the source returns None), or was refused by the store because the
      movie or the user does not exist. */
  datatype AddOutcome = Added(favorite: Favorite) | AlreadyFavorite | AddRefused

  /** Inserts the pair unless a row for it already exists. */
  method AddFavorite(db: Db, movie_id: int, user_id: int) returns (r: AddOutcome)
    requires db.Valid()
    modifies db
    ensures db.Valid()
    ensures r.AlreadyFavorite? <==> old(IsFavorite(db, movie_id, user_id))
    ensures r.AddRefused? <==>
      !old(IsFavorite(db, movie_id, user_id)) && (movie_id !in old(db.MovieIds()) || user_id !in old(db.UserIds()))
    ensures !r.Added? ==> unchanged(db)
    ensures r.Added? ==>
      && r.favorite.id !in old(db.FavoriteIds())
      && r.favorite.movie_id == movie_id && r.favorite.user_id == user_id
      && db.favorites == old(db.favorites) + [r.favorite]
      && db.users == old(db.users) && db.movies == old(db.movies)
      && db.reviews == old(db.reviews) && db.ratings == old(db.ratings)
    ensures IsFavorite(db, movie_id, user_id) <==> r.Added? || r.AlreadyFavorite?
  {
    var existing := FindFavorite(db, movie_id, user_id);
    if existing.Some? {
      return AlreadyFavorite;
    }
    if movie_id !in db.MovieIds() || user_id !in db.UserIds() {
      return AddRefused;
    }
    var favorite := Favorite(NextKey(db.favorites, FavoriteId), movie_id, user_id);
    UniqueAfterAppend(db.favorites, favorite, FavoriteId);
    UniqueAfterAppend(db.favorites, favorite, FavoritePair);
    db.Store(db.users, db.movies, db.reviews, db.ratings, db.favorites + [favorite]);
    assert favorite in db.favorites;
    return Added(favorite);
  }

  /** Deletes the (first) row for the pair, if there is one. */
  method RemoveFavorite(db: Db, movie_id: int, user_id: int) returns (removed: bool)
    requires db.Valid()
    modifies db
    ensures db.Valid()
    ensures removed <==> old(IsFavorite(db, movie_id, user_id))
    ensures !removed ==> unchanged(db)
    ensures removed ==>
      && db.favorites == WhereNot(old(db.favorites), FavoritePair, (movie_id, user_id))
      && |db.favorites| == |old(db.favorites)| - 1
      && (forall f :: f in db.favorites <==> f in old(db.favorites) && (f.movie_id, f.user_id) != (movie_id, user_id))
      && db.users == old(db.users) && db.movies == old(db.movies)
      && db.reviews == old(db.reviews) && db.ratings == old(db.ratings)
    ensures !IsFavorite(db, movie_id, user_id)
  {
    var favorite := FindFavorite(db, movie_id, user_id);
    if favorite.None? {
      return false;
    }
    var id := favorite.value.id;
    WhereNotRemovesOne(db.favorites, FavoriteId, id);
    WhereNotKeepsUnique(db.favorites, FavoriteId, id, FavoriteId);
    WhereNotKeepsUnique(db.favorites, FavoriteId, id, FavoritePair);
    forall f | f in db.favorites
      ensures f.id != id <==> (f.movie_id, f.user_id) != (movie_id, user_id)
    {
      if f.id == id {
        UniqueKeyIdentifies(db.favorites, FavoriteId, f, favorite.value);
      }
      if FavoritePair(f) == (movie_id, user_id) {
        UniqueKeyIdentifies(db.favorites, FavoritePair, f, favorite.value);
      }
    }
    FilterAgrees(db.favorites, KeyIsNot(FavoriteId, id), KeyIsNot(FavoritePair, (movie_id, user_id)));
    db.Store(db.users, db.movies, db.reviews, db.ratings, WhereNot(db.favorites, FavoriteId, id));
    return true;
  }

  function GetFavoriteById(db: Db, id: int): (r: Option<Favorite>)
    reads db
    ensures r.None? <==> forall f :: f in db.favorites ==> f.id != id
    ensures r.Some? ==> r.value in db.favorites && r.value.id == id
  {
    First(db.favorites, (f: Favorite) => f.id == id)
  }
}
