# Movie-review backend: a verified model of its store, data-access objects and route handlers

The system is a small movie-review web backend. Users register, log in, edit and delete their
accounts. Admins add and delete movies. Users write reviews that a moderator approves before they
are listed, and keep a list of favorite movies. Everything lives in five tables: users, movies,
reviews, ratings and favorites.

This project models the core of that backend in Dafny:

- **The record shapes and the schema's constraints** (`models.dfy`, `database.dfy`).
  - Ids, emails and usernames are unique.
  - Every review, rating and favorite names an existing movie and an existing user.
  - There is at most one favorite per (movie, user) pair. The schema declares no such
    constraint; the pair is kept unique only by `add_favorite`'s check before its insert, and
    the model carries it as an invariant of the store.
  - The store is the class `Database.Db`, with one `seq` per table; table order stands for row
    order.
  - `Db.Valid()` is the conjunction of the constraints. Every write goes through `Db.Store`, one
    commit that the constraints must accept.
  - A write that would break a UNIQUE constraint, or a FOREIGN KEY constraint under the
    enforcement assumption below, is refused as a whole: `Commit.IntegrityError`, with nothing
    changed.
- **The four data-access objects** (`user_dao.dfy`, `movie_dao.dfy`, `review_dao.dfy`,
  `favorite_dao.dfy`).
  - Queries are functions over the tables.
  - Inserts, updates and deletes are methods on the store. They keep `Valid()` and state the
    whole new state of the tables.
  - Deleting a user or a movie cascades to its reviews, ratings and favorites, as the schema's
    "all, delete-orphan" relationships do.
- **The four routers** (`movies_router.dfy`, `users_router.dfy`, `reviews_router.dfy`,
  `favorites_router.dfy`).
  - Each handler returns `Http.Response`: `Ok(payload)` or `Err(status, detail)`.
  - An exception the handler does not catch becomes `Err(500, "Internal Server Error")`.
- **Python's stable `sorted`** (`sorting.dfy`): an insertion sort under a key order, proved to
  sort, to permute and to keep ties in input order. Also Python's ordering of `str` values.
- **SQL query helpers** (`seqs.dfy`): `filter(...).first()`, filtering, SQLite's
  `OFFSET`/`LIMIT`, and SQLite's choice of a fresh integer primary key.
- **Worked examples** (`scenarios.dfy`): scenarios that Dafny verifies, with the handlers applied to a fresh store. They cover the
  registration discrepancy below, the moderation flow and favoriting twice.

Decisions taken where the code leaves something open:

- **Which schema.** `app/models.py` is taken as the schema. The per-package `models.py` copies
  and the migration differ from it: the migration does not make `username` unique and lets
  `reviews.user_id` be null.
- **Foreign keys (an assumption).** `app/models.py` declares the references (lines 85-86,
  112-113 and 137-138). The model assumes the engine enforces them. SQLite does so only on a
  connection that has issued `PRAGMA foreign_keys=ON`. The migration issues it once, on its own
  connection; the engine setup in `init_db.py:26-30` does not. The application's own engine
  configuration is not part of this model. Under Left out are the places where this
  assumption decides an answer.
- **Fresh ids.** A new row's id is one more than the largest id in the table, or 1 for an empty
  table.
- **The model follows the code as written.**
  - Registration checks only the email. The profile update answers a taken username with a 400
    (`app/users/router.py:84-87`); registration does not (see Findings).
  - The "popular" order is whatever order the store's movie listing has; the handler does no
    sorting for it.

## Model

| member | source | states |
|---|---|---|
| Seqs.NextKey | app/models.py:15 | a new row's id is greater than every id already in the table, so it is fresh |
| Seqs.Page | app/users/dao.py:70 | `offset(skip).limit(limit)`: exactly min(`limit`, rows left after the SQLite offset) rows (all of them when `limit` is negative), the table's rows from that offset onwards, in order |
| Database.Db.Store | app/users/dao.py:35-37 | one commit replaces all five tables; the new contents must satisfy the constraints and the store is valid afterwards |
| Database.CascadeUserKeepsConsistent | app/models.py:26-40 | removing a user with every review, rating and favorite naming it keeps every key unique and every reference resolving; exactly that user id disappears |
| Database.CascadeMovieKeepsConsistent | app/models.py:60-74 | removing a movie with every review, rating and favorite naming it keeps every key unique and every reference resolving; exactly that movie id disappears |
| Database.ReplaceUserKeepsConsistent | app/models.py:15-18 | replacing a user's row by one with the same id and an email and username no other row holds keeps id, email and username unique and the user ids unchanged |
| Models.ApprovalsKeptWhen | app/models.py:89 | a reviews table whose rows are each approved, unchanged or new keeps every approval of the old table |
| UserDao.GetUserById | app/users/dao.py:10-12 | none exactly when no user has the id; otherwise a stored user with that id |
| UserDao.GetUserByEmail | app/users/dao.py:15-17 | none exactly when no user has the email; otherwise the first user in row order with that email |
| UserDao.GetUserByUsername | app/users/dao.py:20-22 | none exactly when no user has the username; otherwise the first user in row order with that username |
| UserDao.CreateUser | app/users/dao.py:25-38 | refused with no change exactly when the email or the username is in use; otherwise appends one user with a fresh id, the given email, password and username and roles (user, not moderator, not admin), other tables unchanged |
| UserDao.ApplyInPlace | app/users/dao.py:48-50 | the `setattr` loop yields the user with the updates applied in order |
| UserDao.ApplyUpdatesSetsSuppliedFields | app/users/dao.py:48-50 | after the updates each column holds the last non-None value supplied for it, or its old value; id and role flags are unchanged |
| UserDao.NothingSuppliedKeepsUser | app/users/dao.py:48-50 | updates whose values are all None leave the user unchanged |
| UserDao.UpdateUser | app/users/dao.py:41-54 | None with no change exactly when the id is absent; refused with no change exactly when the updated row would share an email or username with another user; otherwise only that user's row is replaced by the updated one |
| UserDao.DeleteUser | app/users/dao.py:57-65 | false with no change exactly when the id is absent; otherwise exactly that user and the reviews, ratings and favorites naming it are removed, movies untouched |
| UserDao.GetAllUsers | app/users/dao.py:68-70 | exactly min(`limit`, users after the offset `skip`) users, the table's rows in order from that offset; the whole table without offset when it fits the limit |
| MovieDao.GetMovieById | app/movies/dao.py:9-12 | none exactly when no movie has the id; otherwise a stored movie with that id |
| MovieDao.GetAllMovies | app/movies/dao.py:14-17 | exactly min(`limit`, movies after the offset `skip`) movies, the table's rows in order from that offset; the whole table without offset when it fits the limit |
| MovieDao.CreateMovie | app/movies/dao.py:19-33 | appends exactly one movie with a fresh id and the given title, description, genre, year and poster URL; nothing else changes |
| MovieDao.DeleteMovie | app/movies/dao.py:35-44 | false with no change exactly when the id is absent; otherwise exactly that movie and the reviews, ratings and favorites naming it are removed, users untouched |
| MovieDao.GetMoviesByGenre | app/movies/dao.py:46-49 | only stored movies of that genre; exactly min(`limit`, matches after the offset) of them, the genre's movies in row order from the offset `skip`; all of them without offset when they fit the limit |
| ReviewDao.GetReviewById | app/reviews/dao.py:9-12 | none exactly when no review has the id; otherwise a stored review with that id |
| ReviewDao.GetMovieReviews | app/reviews/dao.py:14-20 | exactly the stored reviews of that movie (only approved ones when `approved_only`), each row once and in row order: the two-step query equals a single filter of the table |
| ReviewDao.CreateReview | app/reviews/dao.py:22-35 | refused with no change exactly when the movie or the user is missing; otherwise appends one unapproved review with a fresh id and the given fields; approvals kept |
| ReviewDao.ApproveReview | app/reviews/dao.py:37-46 | false with no change exactly when the id is absent; otherwise only that review's approved flag is set; approving an approved review changes nothing; no approval is lost |
| ReviewDao.DeleteReview | app/reviews/dao.py:48-57 | false with no change exactly when the id is absent; otherwise exactly that review is removed; no approval is lost |
| ReviewDao.GetUserReviews | app/reviews/dao.py:59-62 | only that user's reviews; exactly min(`limit`, matches after the offset) of them, the user's reviews in row order from the offset `skip`; all of them without offset when they fit the limit |
| FavoriteDao.GetUserFavorites | app/favorites/dao.py:9-12 | only that user's favorites; exactly min(`limit`, matches after the offset) of them, the user's favorites in row order from the offset `skip`; all of them without offset when they fit the limit |
| FavoriteDao.FindFavorite | app/favorites/dao.py:46-49 | none exactly when no row has the pair; otherwise a stored row with that pair |
| FavoriteDao.IsFavorite | app/favorites/dao.py:14-20 | true exactly when some row has the (movie, user) pair |
| FavoriteDao.AddFavorite | app/favorites/dao.py:22-41 | already-there with no change exactly when the pair exists; refused with no change when it is new and the movie or user is missing; otherwise appends one row with a fresh id; afterwards the pair is a favorite exactly when it was added or already there; at most one row per pair is kept |
| FavoriteDao.RemoveFavorite | app/favorites/dao.py:43-56 | false with no change exactly when the pair is absent; otherwise the table becomes exactly its rows without the pair, in row order (one row fewer), the other tables unchanged; afterwards the pair is not a favorite |
| FavoriteDao.GetFavoriteById | app/favorites/dao.py:58-61 | none exactly when no favorite has the id; otherwise a stored favorite with that id |
| Sorting.StrLeTotal | app/movies/router.py:28 | any two strings are ordered one way or the other under Python's `str` order |
| Sorting.StrLeTransitive | app/movies/router.py:28 | Python's `str` order is transitive |
| Sorting.SortBySorted | app/movies/router.py:27-30 | under a total preorder the sorted list is ordered and a permutation of the input |
| Sorting.SortByStable | app/movies/router.py:27-30 | under a total preorder every class of tied elements appears in the sorted list in its input order |
| MoviesRouter.GetMovies | app/movies/router.py:19-33 | a 500 (TypeError) exactly when sorting by year compares a missing year; otherwise a permutation of the genre-filtered listing |
| MoviesRouter.GenreFilter | app/movies/router.py:24-25 | with a selected genre, exactly the listed movies of that genre, as a subsequence of the listing; with none, empty or "all", the listing itself |
| MoviesRouter.TitleOrderIsTotalPreorder | app/movies/router.py:28 | ordering movies by title is a total preorder |
| MoviesRouter.SortByTitle | app/movies/router.py:27-28 | sort=title gives a permutation of the filtered movies with titles non-decreasing and tied titles in input order |
| MoviesRouter.SortByYear | app/movies/router.py:29-30 | sort=year (no missing year to compare) gives a permutation of the filtered movies with years non-increasing and equal years in input order |
| MoviesRouter.OtherSortKeepsOrder | app/movies/router.py:20-31 | any other sort value, "popular" included, returns the filtered listing in its own order |
| MoviesRouter.ReviewsOfListedCountsReviewsOfListedMovies | app/movies/router.py:43-46 | for a listing without repeated movies, adding up each movie's reviews counts exactly the reviews of listed movies |
| MoviesRouter.ReviewsOfAllMovies | app/movies/router.py:39-46 | when the listing holds every movie once, the count is the number of reviews in the store |
| MoviesRouter.GetStats | app/movies/router.py:36-51 | movies_count is the listing's length; reviews_count is the movie-by-movie sum, hence the number of reviews of the listed movies, approved or not |
| MoviesRouter.GetMovie | app/movies/router.py:54-62 | 404 "Movie not found" exactly when absent; otherwise the stored movie with that id |
| MoviesRouter.CreateMovie | app/movies/router.py:65-75 | the fields reach the store unchanged and one movie is appended; the other tables do not change |
| MoviesRouter.DeleteMovie | app/movies/router.py:78-99 | 404 with no change exactly when absent; for one request at a time never the 500; otherwise the deleted body, exactly that movie and the reviews, ratings and favorites naming it removed, users untouched |
| UsersRouter.Register | app/users/router.py:25-34 | 400 "Email already exists" exactly when the email is in use; a 500 when only the username is in use; every error leaves the store unchanged; otherwise exactly one user appended with the default roles, the other tables unchanged |
| UsersRouter.RegisterChecked | app/users/router.py:25-34 | corrected registration: 400 for a taken email, 400 "Username already exists" for a taken username, never a 500, no change on error; otherwise exactly one user appended, the other tables unchanged |
| UsersRouter.Login | app/users/router.py:36-51 | every failure is the same 401 "Invalid credentials"; success exactly when the user found by username passes the password check |
| UsersRouter.LoginChecksTheNamedUser | app/users/router.py:42-51 | in a valid store, login with a user's username succeeds exactly when that user's password verifies, and returns that user |
| UsersRouter.GetCurrentUser | app/users/router.py:53-61 | 404 "User not found" exactly when absent; otherwise the stored user |
| UsersRouter.ProfileUpdatesApply | app/users/router.py:89-95 | the three keyword arguments update email, password and username each to the supplied value or keep it |
| UsersRouter.NoClashWithOthers | app/users/router.py:77-87 | an email and a username that are each the user's own or unused cannot clash with another user |
| UsersRouter.UpdateUser | app/users/router.py:63-100 | 404 exactly when absent; 400 "Email already exists" exactly for a non-empty new email in use; then 400 "Username already exists" likewise; after the checks a 500 exactly when the updated row would clash with another user, which needs an empty email or username; success exactly when the checks pass and nothing clashes, and then only that user's row changes, to the supplied values, the other tables unchanged |
| UsersRouter.SaveProfile | app/users/router.py:89-100 | after the checks, a 500 with no change exactly when the updated row would clash with another user (only possible for an empty email or username); otherwise only that user's row is replaced by the supplied values, the other tables unchanged |
| UsersRouter.DeleteUser | app/users/router.py:102-123 | 404 with no change exactly when absent; for one request at a time never the 500; otherwise the deleted body, exactly that user and the reviews, ratings and favorites naming it removed, movies untouched |
| ReviewsRouter.CreateReview | app/reviews/router.py:9-29 | 404 with nothing created exactly when the movie is absent; a 500 with no change exactly when the movie exists and the user does not; otherwise exactly one unapproved review with the given fields appended, the other tables unchanged |
| ReviewsRouter.GetReviews | app/reviews/router.py:32-41 | exactly the movie's reviews, only approved ones when asked, each row once and in row order |
| ReviewsRouter.DefaultListsApprovedOnly | app/reviews/router.py:33 | by default a review of the movie is listed exactly when approved |
| ReviewsRouter.ApproveReview | app/reviews/router.py:44-54 | 404 "Review not found" with no change exactly when absent; otherwise the approved body, only that review's approved flag set, the other tables unchanged |
| ReviewsRouter.DeleteReview | app/reviews/router.py:57-67 | 404 "Review not found" with no change exactly when absent; otherwise the deleted body, exactly that review removed, the other tables unchanged |
| FavoritesRouter.GetUserFavorites | app/favorites/router.py:8-17 | the first 100 of the user's favorites in row order, or all of them when there are at most 100 |
| FavoritesRouter.AddToFavorites | app/favorites/router.py:20-39 | 404 with no change exactly when the movie is absent; 400 exactly when the pair is already a favorite; a 500 exactly when it is new and the user is missing; otherwise exactly one row appended, the other tables unchanged, after which the pair is a favorite |
| FavoritesRouter.RemoveFromFavorites | app/favorites/router.py:42-52 | true exactly when the pair was a favorite; false leaves the store unchanged; true leaves exactly the rows without the pair, in row order, the other tables unchanged; afterwards the pair is not a favorite |
| FavoritesRouter.CheckFavorite | app/favorites/router.py:55-65 | `is_favorite` is true exactly when some row has the pair |
| Scenarios.RegisterSameUsernameTwice | app/users/router.py:29-33 | two registrations with different emails and one username: the second answers 500 |
| Scenarios.RegisterCheckedSameUsernameTwice | app/users/router.py:29-33 | the same two registrations with the corrected handler: the second answers 400 "Username already exists" |
| Scenarios.ReviewModeration | app/reviews/router.py:9-54 | a new review is absent from the default listing and present after approval |
| Scenarios.FavoriteTwice | app/favorites/router.py:20-65 | adding a favorite twice keeps one row and answers 400 the second time; after removal the check is false |

## Left out

- Password hashing and bcrypt (`app/security.py`) are not part of this model. `UsersRouter.Login` takes the password check as a parameter `verify(plain, hash)`. Passwords reach the store as given: any hashing happens in code outside this model.
- The `app.db` module the routers call is not part of this model. Its operations are modelled by the data-access objects' semantics.
- `MoviesRouter.GetMovies` and `MoviesRouter.GetStats` take the store's movie listing as the parameter `listing`, because its order and paging belong to `app.db`.
- MoviesRouter.GetStats: the listing is whatever `get_all_movies` returned. With that function's default limit of 100, the review total equals the store's (`ReviewsOfAllMovies`) only while there are at most 100 movies.
- FavoritesRouter.GetUserFavorites assumes the data-access object's defaults, offset 0 and limit 100.
- FavoritesRouter.AddToFavorites: the dictionary that `app.db` returns is not part of this model. The router's `"error" in result` test becomes the `AlreadyFavorite` outcome. The 400 detail `ALREADY_FAVORITE` stands in for the unseen message.
- A missing movie or user that reaches a favorite insert is modelled as a store refusal (a 500).
- Timestamps (`created_at`, `updated_at`) and the clock are not modelled.
- Default arguments are explicit parameters. The data-access objects' `skip`/`limit` defaults (0/10 for users and a user's reviews, 0/100 for movies and favorites), `poster_url=None` and `rating=None` become parameters that every caller supplies.
- MovieDao.CreateMovie takes `genre: string` and `year: int` although the columns allow null. Its only caller, the movie-creation handler, always supplies both, so no reachable input is lost.
- `Rating.value` is a float and is not modelled. Ratings have no operation in this core: their rows exist only to be removed by the cascades.
- Session mechanics (add, flush, refresh, rollback) are not modelled. Each data-access call is one atomic commit through `Database.Db.Store`.
- Concurrency is not modelled: requests are handled one at a time, each handler running alone. The synchronous handlers run in a thread pool and nothing in the code serializes them, so overlapping requests can break what the model proves:
  - two overlapping `add_favorite` calls for a new pair both pass the check (app/favorites/dao.py:25-41) and store two rows, because app/models.py:132-150 declares no UNIQUE constraint on the pair; the store's `UniqueBy(favorites, FavoritePair)` invariant, FavoriteDao.AddFavorite's "at most one row per pair" and FavoriteDao.RemoveFavorite's "the pair is not a favorite afterwards" then fail;
  - two overlapping deletes of one movie or user both pass the existence check (app/movies/router.py:89-99, app/users/router.py:113-123) and the second answers 500 "Failed to delete ...", which MoviesRouter.DeleteMovie and UsersRouter.DeleteUser prove unreachable for one request at a time;
  - two overlapping registrations with one new email both pass the email check (app/users/router.py:29-33) and the second answers 500 from the UNIQUE constraint rather than the 400 that UsersRouter.Register states.
- Integer widths are not modelled. Ids and years are unbounded integers, while SQLite's are 64-bit.
- `EmailStr` validation, request parsing, route registration, the login debug print and the HTTP framing are left out.
- UserDao.UpdateUser takes its updates as (field, value) pairs over the three user columns, so `hasattr(user, field)` always holds. Other keys in the update dictionary are not modelled.
- UsersRouter.UpdateUser: the handler's 404 after the update cannot happen once the user was found. The model proves this branch dead rather than returning it.
- The migration files and the per-package copies of the models are left out. Both declare `username` without a UNIQUE constraint: the migration, and `app/users/models.py:18`, which `init_db.py:6` uses to create the tables. Under those a duplicate username would be stored, `UsersRouter.Register` would answer 200 rather than 500, and login would pick the first such user in row order.
- Database.Db.Valid: its `ReferencesResolve` part holds only if the engine enforces foreign keys (see the assumption above). Without enforcement, rows naming a missing movie or user can be stored, and the invariant does not hold for the real store.
- ReviewsRouter.CreateReview: the 500 for a missing user rests on foreign-key enforcement. Without it the review is stored with a 200 and names no user.
- FavoritesRouter.AddToFavorites: the 500 for a missing user rests on foreign-key enforcement in the same way. Without it the favorite row is stored.
- UserDao.DeleteUser and MovieDao.DeleteMovie do not depend on the assumption: the cascades are done by the ORM relationships, not by the database.
- `Sorting.StrLe` compares strings by code point, as Python does. Locale collation is not involved.

## Findings

| source | as written | input that shows it | evidently intended | confidence | as-written member | corrected member |
|---|---|---|---|---|---|---|
| app/users/router.py:29-33 | registration checks only the email before inserting, so a taken username reaches the store's UNIQUE constraint and the uncaught IntegrityError answers 500 | a stored user (ann@example.com, ann), then register (other@example.com, ann) | 400 "Username already exists", as the profile update does for a taken username at app/users/router.py:84-87 | high that the 500 follows from the code under the declared schema; not executed | UsersRouter.Register | UsersRouter.RegisterChecked |
