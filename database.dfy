/** The database session every data-access call receives: five tables, each
    a sequence of rows in row order, and the constraints the schema declares
    on them. A write that would break a declared UNIQUE or FOREIGN KEY
    constraint is refused by the store as a whole (`IntegrityError`) and
    leaves every table as it was. */
module Database {
  import opened Seqs
  import opened Models

  /** Outcome of a write the store may refuse. */
  datatype Commit<T> = Committed(value: T) | IntegrityError

  function UserIdsOf(users: seq<User>): set<int> { set u | u in users :: u.id }
  function MovieIdsOf(movies: seq<Movie>): set<int> { set m | m in movies :: m.id }

  /** Primary keys, and the UNIQUE email and username columns of users. */
  ghost predicate KeysUnique(users: seq<User>, movies: seq<Movie>, reviews: seq<Review>,
                             ratings: seq<Rating>, favorites: seq<Favorite>)
  {
    && UniqueBy(users, UserId)
    && UniqueBy(users, UserEmail)
    && UniqueBy(users, UserName)
    && UniqueBy(movies, MovieId)
    && UniqueBy(reviews, ReviewId)
    && UniqueBy(ratings, RatingId)
    && UniqueBy(favorites, FavoriteId)
  }

  /** Every review, rating and favorite names an existing movie and an
      existing user (non-null foreign keys). */
  ghost predicate ReferencesResolve(users: seq<User>, movies: seq<Movie>, reviews: seq<Review>,
                                    ratings: seq<Rating>, favorites: seq<Favorite>)
  {
    && (forall r :: r in reviews ==> r.movie_id in MovieIdsOf(movies) && r.user_id in UserIdsOf(users))
    && (forall r :: r in ratings ==> r.movie_id in MovieIdsOf(movies) && r.user_id in UserIdsOf(users))
    && (forall f :: f in favorites ==> f.movie_id in MovieIdsOf(movies) && f.user_id in UserIdsOf(users))
  }

  /** The schema's constraints, plus at most one favorite per (movie, user),
      which the favorites data-access object keeps rather than the schema. */
  ghost predicate Consistent(users: seq<User>, movies: seq<Movie>, reviews: seq<Review>,
                             ratings: seq<Rating>, favorites: seq<Favorite>)
  {
    && KeysUnique(users, movies, reviews, ratings, favorites)
    && ReferencesResolve(users, movies, reviews, ratings, favorites)
    && UniqueBy(favorites, FavoritePair)
  }

  /** Deleting a user together with every review, rating and favorite that
      names it leaves no dangling reference. */
  lemma CascadeUserKeepsConsistent(users: seq<User>, movies: seq<Movie>, reviews: seq<Review>,
                                   ratings: seq<Rating>, favorites: seq<Favorite>, id: int)
    requires Consistent(users, movies, reviews, ratings, favorites)
    ensures UserIdsOf(WhereNot(users, UserId, id)) == UserIdsOf(users) - {id}
    ensures Consistent(WhereNot(users, UserId, id), movies, WhereNot(reviews, ReviewUser, id),
                       WhereNot(ratings, RatingUser, id), WhereNot(favorites, FavoriteUser, id))
  {
    WhereNotKeepsUnique(users, UserId, id, UserId);
    WhereNotKeepsUnique(users, UserId, id, UserEmail);
    WhereNotKeepsUnique(users, UserId, id, UserName);
    WhereNotKeepsUnique(reviews, ReviewUser, id, ReviewId);
    WhereNotKeepsUnique(ratings, RatingUser, id, RatingId);
    WhereNotKeepsUnique(favorites, FavoriteUser, id, FavoriteId);
    WhereNotKeepsUnique(favorites, FavoriteUser, id, FavoritePair);
    var users' := WhereNot(users, UserId, id);
    assert UserIdsOf(users') == UserIdsOf(users) - {id};
  }

  /** Deleting a movie together with every review, rating and favorite that
      names it leaves no dangling reference. */
  lemma CascadeMovieKeepsConsistent(users: seq<User>, movies: seq<Movie>, reviews: seq<Review>,
                                    ratings: seq<Rating>, favorites: seq<Favorite>, id: int)
    requires Consistent(users, movies, reviews, ratings, favorites)
    ensures MovieIdsOf(WhereNot(movies, MovieId, id)) == MovieIdsOf(movies) - {id}
    ensures Consistent(users, WhereNot(movies, MovieId, id), WhereNot(reviews, ReviewMovie, id),
                       WhereNot(ratings, RatingMovie, id), WhereNot(favorites, FavoriteMovie, id))
  {
    WhereNotKeepsUnique(movies, MovieId, id, MovieId);
    WhereNotKeepsUnique(reviews, ReviewMovie, id, ReviewId);
    WhereNotKeepsUnique(ratings, RatingMovie, id, RatingId);
    WhereNotKeepsUnique(favorites, FavoriteMovie, id, FavoriteId);
    WhereNotKeepsUnique(favorites, FavoriteMovie, id, FavoritePair);
    var movies' := WhereNot(movies, MovieId, id);
    assert MovieIdsOf(movies') == MovieIdsOf(movies) - {id};
  }

  /** Replacing a user's row by one with the same id, and with an email and
      a username no other row holds, keeps every constraint. */
  lemma ReplaceUserKeepsConsistent(users: seq<User>, movies: seq<Movie>, reviews: seq<Review>,
                                   ratings: seq<Rating>, favorites: seq<Favorite>, k: nat, u: User)
    requires Consistent(users, movies, reviews, ratings, favorites)
    requires k < |users| && u.id == users[k].id
    requires forall j :: 0 <= j < |users| && j != k ==> users[j].email != u.email && users[j].username != u.username
    ensures UserIdsOf(users[k := u]) == UserIdsOf(users)
    ensures Consistent(users[k := u], movies, reviews, ratings, favorites)
  {
    forall j | 0 <= j < |users| && j != k ensures users[j].id != u.id {
      assert UserId(users[j]) != UserId(users[k]);
    }
    UniqueAfterUpdate(users, k, u, UserId);
    UniqueAfterUpdate(users, k, u, UserEmail);
    UniqueAfterUpdate(users, k, u, UserName);
    assert forall j :: 0 <= j < |users| ==> users[k := u][j].id == users[j].id;
    assert UserIdsOf(users[k := u]) == UserIdsOf(users);
  }

  class Db {
    var users: seq<User>
    var movies: seq<Movie>
    var reviews: seq<Review>
    var ratings: seq<Rating>
    var favorites: seq<Favorite>

    constructor ()
      ensures Valid()
      ensures users == [] && movies == [] && reviews == [] && ratings == [] && favorites == []
    {
      users, movies, reviews, ratings, favorites := [], [], [], [], [];
    }

    function UserIds(): set<int> reads this { UserIdsOf(users) }
    function MovieIds(): set<int> reads this { MovieIdsOf(movies) }
    function Emails(): set<string> reads this { set u | u in users :: u.email }
    function Usernames(): set<string> reads this { set u | u in users :: u.username }
    function ReviewIds(): set<int> reads this { set r | r in reviews :: r.id }
    function FavoriteIds(): set<int> reads this { set f | f in favorites :: f.id }

    ghost predicate Valid()
      reads this
    {
      Consistent(users, movies, reviews, ratings, favorites)
    }

    /** Commits new contents for every table at once, as one transaction
        that the constraints accept. */
    method Store(users': seq<User>, movies': seq<Movie>, reviews': seq<Review>,
                 ratings': seq<Rating>, favorites': seq<Favorite>)
      requires Consistent(users', movies', reviews', ratings', favorites')
      modifies this
      ensures Valid()
      ensures users == users' && movies == movies' && reviews == reviews'
      ensures ratings == ratings' && favorites == favorites'
    {
      users, movies, reviews, ratings, favorites := users', movies', reviews', ratings', favorites';
    }
  }
}
