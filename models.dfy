/** The five record shapes of the schema (users, movies, reviews, ratings,
    favorites). Nullable columns are `Option`s; non-null columns are plain
    values, so a missing title or review text cannot be represented.
    Timestamps are left out. */
module Models {
  import opened Seqs

  datatype User = User(
    id: int,
    email: string,
    password: string,
    username: string,
    is_user: bool,
    is_moderator: bool,
    is_admin: bool)

  datatype Movie = Movie(
    id: int,
    title: string,
    description: Option<string>,
    genre: Option<string>,
    year: Option<int>,
    poster_url: Option<string>)

  datatype Review = Review(
    id: int,
    movie_id: int,
    user_id: int,
    text: string,
    rating: Option<int>,
    approved: bool)

  /** A rating's float value is not modelled: a rating row matters here
      only as a dependant of its movie and its user. */
  datatype Rating = Rating(id: int, movie_id: int, user_id: int)

  datatype Favorite = Favorite(id: int, movie_id: int, user_id: int)

  // Column projections, used as keys of the table queries.
  function UserId(u: User): int { u.id }
  function UserEmail(u: User): string { u.email }
  function UserName(u: User): string { u.username }
  function MovieId(m: Movie): int { m.id }
  function ReviewId(r: Review): int { r.id }
  function ReviewMovie(r: Review): int { r.movie_id }
  function ReviewUser(r: Review): int { r.user_id }
  function RatingId(r: Rating): int { r.id }
  function RatingMovie(r: Rating): int { r.movie_id }
  function RatingUser(r: Rating): int { r.user_id }
  function FavoriteId(f: Favorite): int { f.id }
  function FavoriteMovie(f: Favorite): int { f.movie_id }
  function FavoriteUser(f: Favorite): int { f.user_id }
  function FavoritePair(f: Favorite): (int, int) { (f.movie_id, f.user_id) }

  /** Approval only ever moves from false to true: every review approved in
      `before` that is still present in `after` (same id) is approved there. */
  ghost predicate ApprovalsKept(before: seq<Review>, after: seq<Review>) {
    forall r, r' :: r in before && r' in after && r.approved && r'.id == r.id ==> r'.approved
  }

  /** A change to the reviews table keeps every approval when each row it
      leaves is approved, was there before, or carries an id not used before. */
  lemma ApprovalsKeptWhen(before: seq<Review>, after: seq<Review>)
    requires UniqueBy(before, ReviewId)
    requires forall r' :: r' in after ==>
      r'.approved || r' in before || forall r :: r in before ==> r.id != r'.id
    ensures ApprovalsKept(before, after)
  {
    forall r, r' | r in before && r' in after && r.approved && r'.id == r.id ensures r'.approved {
      if !r'.approved && r' in before {
        UniqueKeyIdentifies(before, ReviewId, r, r');
      }
    }
  }
}
