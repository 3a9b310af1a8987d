/** Worked examples of the handlers on a fresh store: the registration
    discrepancy and its correction, the review moderation flow, and
    favoriting twice. */
module Scenarios {
  import opened Seqs
  import opened Models
  import opened Database
  import opened Http
  import UsersRouter
  import ReviewsRouter
  import FavoritesRouter

  /** Two registrations with different emails and the same username: the
      second reaches the store and comes back as a 500. */
  method RegisterSameUsernameTwice() returns (r: Response<User>)
    ensures r == Err(500, INTERNAL_SERVER_ERROR)
  {
    var db := new Db();
    var first := UsersRouter.Register(db, "ann@example.com", "secret", "ann");
    assert first.Ok?;
    assert "ann" in db.Usernames() by { assert db.users[0].username == "ann"; }
    r := UsersRouter.Register(db, "other@example.com", "secret", "ann");
  }

  /** The same two registrations against the corrected handler: a 400. */
  method RegisterCheckedSameUsernameTwice() returns (r: Response<User>)
    ensures r == Err(400, "Username already exists")
  {
    var db := new Db();
    var first := UsersRouter.RegisterChecked(db, "ann@example.com", "secret", "ann");
    assert first.Ok?;
    assert "ann" in db.Usernames() by { assert db.users[0].username == "ann"; }
    assert "other@example.com" !in db.Emails() by { assert db.users == [first.value]; }
    r := UsersRouter.RegisterChecked(db, "other@example.com", "secret", "ann");
  }

  /** A store with one user (id 1) and one movie (id 1). */
  method OneUserOneMovie() returns (db: Db)
    ensures fresh(db) && db.Valid()
    ensures 1 in db.UserIds() && 1 in db.MovieIds()
    ensures db.reviews == [] && db.favorites == []
  {
    db := new Db();
    var users := [User(1, "ann@example.com", "secret", "ann", true, false, false)];
    var movies := [Movie(1, "Heat", None, Some("crime"), Some(1995), None)];
    assert users[0].id == 1 && movies[0].id == 1;
    db.Store(users, movies, [], [], []);
  }

  /** A new review is hidden from the default listing until it is approved,
      and listed afterwards. */
  method ReviewModeration() returns (before: bool, after: bool)
    ensures !before && after
  {
    var db := OneUserOneMovie();
    var review := ReviewsRouter.CreateReview(db, 1, 1, "tense", Some(5));
    var x := review.value;
    assert db.reviews == [x];
    before := x in ReviewsRouter.GetReviews(db, 1, ReviewsRouter.DEFAULT_APPROVED_ONLY);
    assert x.id in db.ReviewIds();
    var approved := ReviewsRouter.ApproveReview(db, x.id);
    assert db.reviews == [x.(approved := true)];
    after := x.(approved := true) in ReviewsRouter.GetReviews(db, 1, ReviewsRouter.DEFAULT_APPROVED_ONLY);
  }

  /** Adding the same favorite twice keeps one row and answers 400 the
      second time; removing it clears the check. */
  method FavoriteTwice() returns (second: Response<Favorite>, rows: nat, check: FavoritesRouter.FavoriteCheck)
    ensures second == Err(400, FavoritesRouter.ALREADY_FAVORITE)
    ensures rows == 1
    ensures !check.is_favorite
  {
    var db := OneUserOneMovie();
    var first := FavoritesRouter.AddToFavorites(db, 1, 1);
    second := FavoritesRouter.AddToFavorites(db, 1, 1);
    rows := |db.favorites|;
    var removed := FavoritesRouter.RemoveFromFavorites(db, 1, 1);
    check := FavoritesRouter.CheckFavorite(db, 1, 1);
  }
}
