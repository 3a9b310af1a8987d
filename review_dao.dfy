/** ReviewDAO: lookups, creation (always unapproved), approval, deletion
    and the per-movie and per-user listings. */
module ReviewDao {
  import opened Seqs
  import opened Models
  import opened Database

  function GetReviewById(db: Db, id: int): (r: Option<Review>)
    reads db
    ensures r.None? <==> id !in db.ReviewIds()
    ensures r.Some? ==> r.value in db.reviews && r.value.id == id
  {
    First(db.reviews, (x: Review) => x.id == id)
  }

  function IsApproved(r: Review): bool { r.approved }

  /** Whether a review belongs in a movie's listing. */
  function Listed(movie_id: int, approved_only: bool): Review -> bool {
    (x: Review) => x.movie_id == movie_id && (approved_only ==> x.approved)
  }

  /** The reviews of a movie, only the approved ones when `approved_only`:
      the query in two steps is the one-filter selection of those rows,
      each once, in row order. */
  function GetMovieReviews(db: Db, movie_id: int, approved_only: bool): (r: seq<Review>)
    reads db
    ensures forall x :: x in r <==> x in db.reviews && x.movie_id == movie_id && (approved_only ==> x.approved)
    ensures r == Filter(db.reviews, Listed(movie_id, approved_only))
    ensures IsSubsequence(r, db.reviews)
  {
    var query := Where(db.reviews, ReviewMovie, movie_id);
    if approved_only then
      FilterTwice(db.reviews, KeyIs(ReviewMovie, movie_id), IsApproved, Listed(movie_id, approved_only));
      Filter(query, IsApproved)
    else
      FilterAgrees(db.reviews, KeyIs(ReviewMovie, movie_id), Listed(movie_id, approved_only));
      query
  }

  /** Inserts an unapproved review, whoever writes it; the store refuses a
      movie or user that does not exist. */
  method CreateReview(db: Db, movie_id: int, user_id: int, text: string, rating: Option<int>)
    returns (r: Commit<Review>)
    requires db.Valid()
    modifies db
    ensures db.Valid()
    ensures r.IntegrityError? <==> movie_id !in old(db.MovieIds()) || user_id !in old(db.UserIds())
    ensures r.IntegrityError? ==> unchanged(db)
    ensures r.Committed? ==>
      && r.value.id !in old(db.ReviewIds())
      && r.value == Review(r.value.id, movie_id, user_id, text, rating, false)
      && db.reviews == old(db.reviews) + [r.value]
      && db.users == old(db.users) && db.movies == old(db.movies)
      && db.ratings == old(db.ratings) && db.favorites == old(db.favorites)
    ensures ApprovalsKept(old(db.reviews), db.reviews)
  {
    if movie_id !in db.MovieIds() || user_id !in db.UserIds() {
      return IntegrityError;
    }
    var review := Review(NextKey(db.reviews, ReviewId), movie_id, user_id, text, rating, false);
    UniqueAfterAppend(db.reviews, review, ReviewId);
    ApprovalsKeptWhen(db.reviews, db.reviews + [review]);
    db.Store(db.users, db.movies, db.reviews + [review], db.ratings, db.favorites);
    return Committed(review);
  }

  /** The reviews table with `approved` set on the rows whose id is `id`,
      every other column and row kept. */
  function WithApproved(reviews: seq<Review>, id: int): seq<Review> {
    seq(|reviews|, i requires 0 <= i < |reviews| =>
      if reviews[i].id == id then reviews[i].(approved := true) else reviews[i])
  }

  /** Sets `approved` on the review with this id; nothing else changes. */
  method ApproveReview(db: Db, id: int) returns (found: bool)
    requires db.Valid()
    modifies db
    ensures db.Valid()
    ensures found <==> id in old(db.ReviewIds())
    ensures !found ==> unchanged(db)
    ensures found ==>
      && db.reviews == WithApproved(old(db.reviews), id)
      && db.users == old(db.users) && db.movies == old(db.movies)
      && db.ratings == old(db.ratings) && db.favorites == old(db.favorites)
    ensures found ==> forall x :: x in db.reviews && x.id == id ==> x.approved
    ensures (forall x :: x in old(db.reviews) && x.id == id ==> x.approved) ==> db.reviews == old(db.reviews)
    ensures ApprovalsKept(old(db.reviews), db.reviews)
  {
    var index := FirstIndex(db.reviews, (x: Review) => x.id == id);
    if index.None? {
      return false;
    }
    var k := index.value;
    var approved := db.reviews[k].(approved := true);
    forall j | 0 <= j < |db.reviews| && j != k ensures db.reviews[j].id != id {
      assert db.reviews[j].id != db.reviews[k].id;
    }
    UniqueAfterUpdate(db.reviews, k, approved, ReviewId);
    ApprovalsKeptWhen(db.reviews, db.reviews[k := approved]);
    db.Store(db.users, db.movies, db.reviews[k := approved], db.ratings, db.favorites);
    assert db.reviews == WithApproved(old(db.reviews), id);
    return true;
  }

  /** Deletes the review with this id. */
  method DeleteReview(db: Db, id: int) returns (deleted: bool)
    requires db.Valid()
    modifies db
    ensures db.Valid()
    ensures deleted <==> id in old(db.ReviewIds())
    ensures !deleted ==> unchanged(db)
    ensures deleted ==>
      && db.reviews == WhereNot(old(db.reviews), ReviewId, id)
      && |db.reviews| == |old(db.reviews)| - 1
      && db.users == old(db.users) && db.movies == old(db.movies)
      && db.ratings == old(db.ratings) && db.favorites == old(db.favorites)
    ensures ApprovalsKept(old(db.reviews), db.reviews)
  {
    if id !in db.ReviewIds() {
      return false;
    }
    WhereNotRemovesOne(db.reviews, ReviewId, id);
    WhereNotKeepsUnique(db.reviews, ReviewId, id, ReviewId);
    ApprovalsKeptWhen(db.reviews, WhereNot(db.reviews, ReviewId, id));
    db.Store(db.users, db.movies, WhereNot(db.reviews, ReviewId, id), db.ratings, db.favorites);
    return true;
  }

  /** A user's reviews, paged. */
  function GetUserReviews(db: Db, user_id: int, skip: int, limit: int): (r: seq<Review>)
    reads db
    ensures forall x :: x in r ==> x in db.reviews && x.user_id == user_id
    ensures limit >= 0 ==> |r| <= limit
    ensures var mine := Where(db.reviews, ReviewUser, user_id);
            && |r| == PageSize(|mine|, skip, limit)
            && (forall i :: 0 <= i < |r| ==>
                  Offset(|mine|, skip) + i < |mine| && r[i] == mine[Offset(|mine|, skip) + i])
            && (skip <= 0 && (limit < 0 || |mine| <= limit) ==> r == mine)
    ensures skip <= 0 && limit < 0 ==> forall x :: x in db.reviews && x.user_id == user_id ==> x in r
  {
    Page(Where(db.reviews, ReviewUser, user_id), skip, limit)
  }
}
