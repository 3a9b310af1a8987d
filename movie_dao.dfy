/** MovieDAO: lookup by id, paging, creation, delete with cascade, and the
    genre listing. */
module MovieDao {
  import opened Seqs
  import opened Models
  import opened Database

  function GetMovieById(db: Db, id: int): (r: Option<Movie>)
    reads db
    ensures r.None? <==> id !in db.MovieIds()
    ensures r.Some? ==> r.value in db.movies && r.value.id == id
  {
    First(db.movies, (m: Movie) => m.id == id)
  }

  /** `offset(skip).limit(limit)` over the movies table. */
  function GetAllMovies(db: Db, skip: int, limit: int): (r: seq<Movie>)
    reads db
    ensures limit >= 0 ==> |r| <= limit
    ensures |r| == PageSize(|db.movies|, skip, limit)
    ensures skip <= 0 && (limit < 0 || |db.movies| <= limit) ==> r == db.movies
    ensures forall i :: 0 <= i < |r| ==>
      Offset(|db.movies|, skip) + i < |db.movies| && r[i] == db.movies[Offset(|db.movies|, skip) + i]
  {
    Page(db.movies, skip, limit)
  }

  /** Inserts a movie; nothing in the movies table is unique but its id, so
      the insert always succeeds. */
  method CreateMovie(db: Db, title: string, description: Option<string>, genre: string, year: int,
                     poster_url: Option<string>)
    returns (movie: Movie)
    requires db.Valid()
    modifies db
    ensures db.Valid()
    ensures movie.id !in old(db.MovieIds())
    ensures movie == Movie(movie.id, title, description, Some(genre), Some(year), poster_url)
    ensures db.movies == old(db.movies) + [movie]
    ensures db.users == old(db.users) && db.reviews == old(db.reviews)
    ensures db.ratings == old(db.ratings) && db.favorites == old(db.favorites)
  {
    movie := Movie(NextKey(db.movies, MovieId), title, description, Some(genre), Some(year), poster_url);
    UniqueAfterAppend(db.movies, movie, MovieId);
    ghost var before := db.MovieIds();
    db.Store(db.users, db.movies + [movie], db.reviews, db.ratings, db.favorites);
    assert before <= db.MovieIds();
  }

  /** Deletes the movie; the "all, delete-orphan" relationships remove its
      reviews, ratings and favorites with it. */
  method DeleteMovie(db: Db, id: int) returns (deleted: bool)
    requires db.Valid()
    modifies db
    ensures db.Valid()
    ensures deleted <==> id in old(db.MovieIds())
    ensures !deleted ==> unchanged(db)
    ensures deleted ==>
      && db.movies == WhereNot(old(db.movies), MovieId, id)
      && |db.movies| == |old(db.movies)| - 1
      && db.users == old(db.users)
      && db.reviews == WhereNot(old(db.reviews), ReviewMovie, id)
      && db.ratings == WhereNot(old(db.ratings), RatingMovie, id)
      && db.favorites == WhereNot(old(db.favorites), FavoriteMovie, id)
  {
    if id !in db.MovieIds() {
      return false;
    }
    WhereNotRemovesOne(db.movies, MovieId, id);
    CascadeMovieKeepsConsistent(db.users, db.movies, db.reviews, db.ratings, db.favorites, id);
    db.Store(db.users, WhereNot(db.movies, MovieId, id), WhereNot(db.reviews, ReviewMovie, id),
             WhereNot(db.ratings, RatingMovie, id), WhereNot(db.favorites, FavoriteMovie, id));
    return true;
  }

  function HasGenre(genre: string): Movie -> bool { (m: Movie) => m.genre == Some(genre) }

  /** Movies of one genre, paged: the page is a slice, taken at the offset,
      of the genre's movies in row order. */
  function GetMoviesByGenre(db: Db, genre: string, skip: int, limit: int): (r: seq<Movie>)
    reads db
    ensures forall m :: m in r ==> m in db.movies && m.genre == Some(genre)
    ensures limit >= 0 ==> |r| <= limit
    ensures var matches := Filter(db.movies, HasGenre(genre));
            && |r| == PageSize(|matches|, skip, limit)
            && (forall i :: 0 <= i < |r| ==>
                  Offset(|matches|, skip) + i < |matches| && r[i] == matches[Offset(|matches|, skip) + i])
            && (skip <= 0 && (limit < 0 || |matches| <= limit) ==> r == matches)
    ensures skip <= 0 && limit < 0 ==> forall m :: m in db.movies && m.genre == Some(genre) ==> m in r
  {
    Page(Filter(db.movies, HasGenre(genre)), skip, limit)
  }
}
