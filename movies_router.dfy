/** Route handlers under /api/movies: the listing with genre filter and
    sort, the site statistics, and the single-movie get, create and delete. */
module MoviesRouter {
  import opened Seqs
  import opened Models
  import opened Database
  import opened Sorting
  import opened Http
  import MovieDao
  import ReviewDao

  /** `if genre and genre != "all"`: no genre, the empty string and "all"
      all select every movie. */
  predicate GenreSelected(genre: Option<string>) {
    genre.Some? && genre.value != "" && genre.value != "all"
  }

  /** The list comprehension that keeps the movies of the selected genre. */
  function ByGenre(movies: seq<Movie>, genre: Option<string>): seq<Movie> {
    if GenreSelected(genre) then Filter(movies, MovieDao.HasGenre(genre.value)) else movies
  }

  /** Key order of `sorted(movies, key=lambda x: x['title'])`. */
  function TitleLe(a: Movie, b: Movie): bool { StrLe(a.title, b.title) }

  function YearKey(m: Movie): int { if m.year.Some? then m.year.value else 0 }

  /** Key order of `sorted(movies, key=lambda x: x['year'], reverse=True)`:
      later years first, ties in input order. */
  function YearGe(a: Movie, b: Movie): bool { YearKey(a) >= YearKey(b) }

  /** Sorting on the year raises TypeError when a missing year must be
      compared, which happens as soon as two or more movies are sorted and
      one of them has no year. */
  predicate YearsIncomparable(movies: seq<Movie>) {
    |movies| >= 2 && exists m :: m in movies && m.year.None?
  }

  /** GET /api/movies: `listing` is what the store's movie listing returned. */
  function GetMovies(listing: seq<Movie>, genre: Option<string>, sort: string): (r: Response<seq<Movie>>)
    ensures r.Err? <==> sort == "year" && YearsIncomparable(ByGenre(listing, genre))
    ensures r.Err? ==> r.status == 500
    ensures r.Ok? ==> multiset(r.value) == multiset(ByGenre(listing, genre))
  {
    var movies := ByGenre(listing, genre);
    if sort == "title" then Ok(SortBy(movies, TitleLe))
    else if sort == "year" then
      if YearsIncomparable(movies) then Err(500, INTERNAL_SERVER_ERROR) else Ok(SortBy(movies, YearGe))
    else Ok(movies)
  }

  /** The genre filter keeps exactly the movies of the selected genre, in
      listing order; without a selected genre nothing is dropped. */
  lemma GenreFilter(listing: seq<Movie>, genre: Option<string>)
    ensures GenreSelected(genre) ==> IsSubsequence(ByGenre(listing, genre), listing)
    ensures GenreSelected(genre) ==>
      forall m :: m in ByGenre(listing, genre) <==> m in listing && m.genre == genre
    ensures !GenreSelected(genre) ==> ByGenre(listing, genre) == listing
  {
  }

  lemma TitleOrderIsTotalPreorder()
    ensures TotalPreorder(TitleLe)
  {
    forall a: Movie, b: Movie ensures TitleLe(a, b) || TitleLe(b, a) {
      StrLeTotal(a.title, b.title);
    }
    forall a: Movie, b: Movie, c: Movie | TitleLe(a, b) && TitleLe(b, c) ensures TitleLe(a, c) {
      StrLeTransitive(a.title, b.title, c.title);
    }
  }

  /** sort=title: a stable permutation of the filtered movies, titles
      non-decreasing. */
  lemma SortByTitle(listing: seq<Movie>, genre: Option<string>)
    ensures GetMovies(listing, genre, "title").Ok?
    ensures var movies := ByGenre(listing, genre);
            var sorted := GetMovies(listing, genre, "title").value;
            && multiset(sorted) == multiset(movies)
            && (forall i, j :: 0 <= i < j < |sorted| ==> StrLe(sorted[i].title, sorted[j].title))
            && (forall z :: Filter(sorted, EquivalentTo(TitleLe, z)) == Filter(movies, EquivalentTo(TitleLe, z)))
  {
    var movies := ByGenre(listing, genre);
    TitleOrderIsTotalPreorder();
    SortBySorted(movies, TitleLe);
    forall z { SortByStable(movies, TitleLe, z); }
  }

  /** sort=year (every year present, or fewer than two movies): a stable
      permutation of the filtered movies, years non-increasing. */
  lemma SortByYear(listing: seq<Movie>, genre: Option<string>)
    requires !YearsIncomparable(ByGenre(listing, genre))
    ensures GetMovies(listing, genre, "year").Ok?
    ensures var movies := ByGenre(listing, genre);
            var sorted := GetMovies(listing, genre, "year").value;
            && multiset(sorted) == multiset(movies)
            && (forall i, j :: 0 <= i < j < |sorted| ==> YearKey(sorted[i]) >= YearKey(sorted[j]))
            && (forall z :: Filter(sorted, EquivalentTo(YearGe, z)) == Filter(movies, EquivalentTo(YearGe, z)))
  {
    var movies := ByGenre(listing, genre);
    assert TotalPreorder(YearGe);
    SortBySorted(movies, YearGe);
    forall z { SortByStable(movies, YearGe, z); }
  }

  /** Any other sort value, "popular" included, keeps the listing's order. */
  lemma OtherSortKeepsOrder(listing: seq<Movie>, genre: Option<string>, sort: string)
    requires sort != "title" && sort != "year"
    ensures GetMovies(listing, genre, sort) == Ok(ByGenre(listing, genre))
  {
  }

  datatype Stats = Stats(movies_count: nat, reviews_count: nat)

  /** Reviews of the listed movies, approved or not, added up movie by movie. */
  function ReviewsOfListed(reviews: seq<Review>, listing: seq<Movie>): nat
    decreases |listing|
  {
    if |listing| == 0 then 0
    else ReviewsOfListed(reviews, listing[..|listing| - 1])
         + |Where(reviews, ReviewMovie, listing[|listing| - 1].id)|
  }

  function MovieIn(ids: set<int>): Review -> bool { (r: Review) => r.movie_id in ids }

  lemma {:induction false} ReviewsOfListedCountsReviewsOfListedMovies(reviews: seq<Review>, listing: seq<Movie>)
    requires UniqueBy(listing, MovieId)
    ensures ReviewsOfListed(reviews, listing) == |Filter(reviews, MovieIn(MovieIdsOf(listing)))|
    decreases |listing|
  {
    if |listing| == 0 {
      FilterNone(reviews, MovieIn(MovieIdsOf(listing)));
    } else {
      var front, last := listing[..|listing| - 1], listing[|listing| - 1];
      LastIdIsNew(listing);
      ReviewsOfListedCountsReviewsOfListedMovies(reviews, front);
      FilterSplitCount(reviews, MovieIn(MovieIdsOf(listing)), MovieIn(MovieIdsOf(front)),
                       KeyIs(ReviewMovie, last.id));
    }
  }

  /** Dropping the last movie of a listing with distinct ids leaves distinct
      ids, none of them the last movie's. */
  lemma LastIdIsNew(listing: seq<Movie>)
    requires UniqueBy(listing, MovieId)
    requires |listing| > 0
    ensures var front, last := listing[..|listing| - 1], listing[|listing| - 1];
            && UniqueBy(front, MovieId)
            && last.id !in MovieIdsOf(front)
            && MovieIdsOf(listing) == MovieIdsOf(front) + {last.id}
  {
    var front, last := listing[..|listing| - 1], listing[|listing| - 1];
    forall i, j | 0 <= i < |front| && 0 <= j < |front| && MovieId(front[i]) == MovieId(front[j])
      ensures i == j
    {
      assert front[i] == listing[i] && front[j] == listing[j];
    }
    forall m | m in front ensures m.id != last.id {
      var i :| 0 <= i < |front| && front[i] == m;
      assert listing[i] == m;
    }
    assert listing == front + [last];
  }

  /** When the listing holds every movie once, in any order, the loop counts
      every review of the store. */
  lemma ReviewsOfAllMovies(db: Db, listing: seq<Movie>)
    requires db.Valid()
    requires UniqueBy(listing, MovieId)
    requires MovieIdsOf(listing) == db.MovieIds()
    ensures ReviewsOfListed(db.reviews, listing) == |db.reviews|
  {
    ReviewsOfListedCountsReviewsOfListedMovies(db.reviews, listing);
    FilterKeepsAll(db.reviews, MovieIn(MovieIdsOf(listing)));
  }

  /** GET /api/movies/stats: counts the listed movies and, movie by movie,
      their reviews, approved or not. */
  method GetStats(db: Db, listing: seq<Movie>) returns (stats: Stats)
    ensures stats.movies_count == |listing|
    ensures stats.reviews_count == ReviewsOfListed(db.reviews, listing)
    ensures UniqueBy(listing, MovieId) ==>
      stats.reviews_count == |Filter(db.reviews, MovieIn(MovieIdsOf(listing)))|
  {
    var reviews_count := 0;
    for i := 0 to |listing|
      invariant reviews_count == ReviewsOfListed(db.reviews, listing[..i])
    {
      var reviews := ReviewDao.GetMovieReviews(db, listing[i].id, false);
      assert listing[..i + 1][..i] == listing[..i];
      reviews_count := reviews_count + |reviews|;
    }
    assert listing[..|listing|] == listing;
    if UniqueBy(listing, MovieId) {
      ReviewsOfListedCountsReviewsOfListedMovies(db.reviews, listing);
    }
    return Stats(|listing|, reviews_count);
  }

  /** GET /api/movies/{id}. */
  function GetMovie(db: Db, movie_id: int): (r: Response<Movie>)
    reads db
    ensures r.Err? <==> movie_id !in db.MovieIds()
    ensures r.Err? ==> r == Err(404, "Movie not found")
    ensures r.Ok? ==> r.value in db.movies && r.value.id == movie_id
  {
    match MovieDao.GetMovieById(db, movie_id)
    case None => Err(404, "Movie not found")
    case Some(movie) => Ok(movie)
  }

  /** POST /api/movies: hands the fields to the store unchanged. */
  method CreateMovie(db: Db, title: string, description: Option<string>, genre: string, year: int,
                     poster_url: Option<string>)
    returns (r: Response<Movie>)
    requires db.Valid()
    modifies db
    ensures db.Valid()
    ensures r.Ok? && r.value.id !in old(db.MovieIds())
    ensures r.value == Movie(r.value.id, title, description, Some(genre), Some(year), poster_url)
    ensures db.movies == old(db.movies) + [r.value]
    ensures db.users == old(db.users) && db.reviews == old(db.reviews)
    ensures db.ratings == old(db.ratings) && db.favorites == old(db.favorites)
  {
    var movie := MovieDao.CreateMovie(db, title, description, genre, year, poster_url);
    return Ok(movie);
  }

  /** DELETE /api/movies/{id}: 404 for an unknown movie, otherwise the
      cascading delete; its failure (500) cannot happen after the check. */
  method DeleteMovie(db: Db, movie_id: int) returns (r: Response<StatusBody>)
    requires db.Valid()
    modifies db
    ensures db.Valid()
    ensures r.Err? <==> movie_id !in old(db.MovieIds())
    ensures r.Err? ==> r == Err(404, "Movie not found") && unchanged(db)
    ensures r.Ok? ==>
      && r.value == StatusBody("deleted", "movie_id", movie_id)
      && movie_id !in db.MovieIds()
      && db.movies == WhereNot(old(db.movies), MovieId, movie_id)
      && db.users == old(db.users)
      && db.reviews == WhereNot(old(db.reviews), ReviewMovie, movie_id)
      && db.ratings == WhereNot(old(db.ratings), RatingMovie, movie_id)
      && db.favorites == WhereNot(old(db.favorites), FavoriteMovie, movie_id)
      && (forall x :: x in db.reviews ==> x.movie_id != movie_id)
      && (forall x :: x in db.ratings ==> x.movie_id != movie_id)
      && (forall x :: x in db.favorites ==> x.movie_id != movie_id)
  {
    var movie := MovieDao.GetMovieById(db, movie_id);
    if movie.None? {
      return Err(404, "Movie not found");
    }
    var success := MovieDao.DeleteMovie(db, movie_id);
    if !success {
      return Err(500, "Failed to delete movie");
    }
    return Ok(StatusBody("deleted", "movie_id", movie_id));
  }
}
