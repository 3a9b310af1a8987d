/** Route handlers under /api/reviews: create a review of a movie, list a
    movie's reviews, approve and delete. */
module ReviewsRouter {
  import opened Seqs
  import opened Models
  import opened Database
  import opened Http
  import MovieDao
  import ReviewDao

  /** POST /api/reviews/movies/{movie_id}: 404 for an unknown movie, with
      nothing written; otherwise the review goes to the store as given,
      unapproved. An unknown user is refused by the store (500). */
  method CreateReview(db: Db, movie_id: int, user_id: int, text: string, rating: Option<int>)
    returns (r: Response<Review>)
    requires db.Valid()
    modifies db
    ensures db.Valid()
    ensures r == Err(404, "Movie not found") <==> movie_id !in old(db.MovieIds())
    ensures r == Err(500, INTERNAL_SERVER_ERROR) <==>
      movie_id in old(db.MovieIds()) && user_id !in old(db.UserIds())
    ensures r.Ok? <==> movie_id in old(db.MovieIds()) && user_id in old(db.UserIds())
    ensures r.Err? ==> unchanged(db)
    ensures r.Ok? ==>
      && r.value == Review(r.value.id, movie_id, user_id, text, rating, false)
      && r.value.id !in old(db.ReviewIds())
      && db.reviews == old(db.reviews) + [r.value]
      && db.users == old(db.users) && db.movies == old(db.movies)
      && db.ratings == old(db.ratings) && db.favorites == old(db.favorites)
    ensures ApprovalsKept(old(db.reviews), db.reviews)
  {
    var movie := MovieDao.GetMovieById(db, movie_id);
    if movie.None? {
      return Err(404, "Movie not found");
    }
    var review := ReviewDao.CreateReview(db, movie_id, user_id, text, rating);
    if review.IntegrityError? {
      return Err(500, INTERNAL_SERVER_ERROR);
    }
    return Ok(review.value);
  }

  /** `approved_only` when the query string leaves it out. */
  const DEFAULT_APPROVED_ONLY := true

  /** GET /api/reviews/movies/{movie_id}. */
  function GetReviews(db: Db, movie_id: int, approved_only: bool): (r: seq<Review>)
    reads db
    ensures forall x :: x in r <==> x in db.reviews && x.movie_id == movie_id && (approved_only ==> x.approved)
    ensures r == Filter(db.reviews, ReviewDao.Listed(movie_id, approved_only))
  {
    ReviewDao.GetMovieReviews(db, movie_id, approved_only)
  }

  /** Without the query parameter only approved reviews are listed; an
      unapproved review stays hidden until a moderator approves it. */
  lemma DefaultListsApprovedOnly(db: Db, movie_id: int, x: Review)
    requires x in db.reviews && x.movie_id == movie_id
    ensures x in GetReviews(db, movie_id, DEFAULT_APPROVED_ONLY) <==> x.approved
    ensures x in GetReviews(db, movie_id, false)
  {
  }

  /** PUT /api/reviews/{review_id}/approve. */
  method ApproveReview(db: Db, review_id: int) returns (r: Response<StatusBody>)
    requires db.Valid()
    modifies db
    ensures db.Valid()
    ensures r.Err? <==> review_id !in old(db.ReviewIds())
    ensures r.Err? ==> r == Err(404, "Review not found") && unchanged(db)
    ensures r.Ok? ==>
      && r.value == StatusBody("approved", "review_id", review_id)
      && review_id in db.ReviewIds()
      && db.reviews == ReviewDao.WithApproved(old(db.reviews), review_id)
      && db.users == old(db.users) && db.movies == old(db.movies)
      && db.ratings == old(db.ratings) && db.favorites == old(db.favorites)
      && forall x :: x in db.reviews && x.id == review_id ==> x.approved
    ensures ApprovalsKept(old(db.reviews), db.reviews)
  {
    var result := ReviewDao.ApproveReview(db, review_id);
    if !result {
      return Err(404, "Review not found");
    }
    assert review_id in db.ReviewIds() by {
      var x :| x in old(db.reviews) && x.id == review_id;
      var i :| 0 <= i < |old(db.reviews)| && old(db.reviews)[i] == x;
      assert db.reviews[i].id == review_id;
    }
    return Ok(StatusBody("approved", "review_id", review_id));
  }

  /** DELETE /api/reviews/{review_id}. */
  method DeleteReview(db: Db, review_id: int) returns (r: Response<StatusBody>)
    requires db.Valid()
    modifies db
    ensures db.Valid()
    ensures r.Err? <==> review_id !in old(db.ReviewIds())
    ensures r.Err? ==> r == Err(404, "Review not found") && unchanged(db)
    ensures r.Ok? ==>
      && r.value == StatusBody("deleted", "review_id", review_id)
      && review_id !in db.ReviewIds()
      && db.reviews == WhereNot(old(db.reviews), ReviewId, review_id)
      && |db.reviews| == |old(db.reviews)| - 1
      && (forall x :: x in db.reviews <==> x in old(db.reviews) && x.id != review_id)
      && db.users == old(db.users) && db.movies == old(db.movies)
      && db.ratings == old(db.ratings) && db.favorites == old(db.favorites)
    ensures ApprovalsKept(old(db.reviews), db.reviews)
  {
    var result := ReviewDao.DeleteReview(db, review_id);
    if !result {
      return Err(404, "Review not found");
    }
    return Ok(StatusBody("deleted", "review_id", review_id));
  }
}
