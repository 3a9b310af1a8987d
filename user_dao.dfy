/** UserDAO: lookups by id, email and username, creation with the default
    role flags, partial update, delete with cascade, and paging. */
module UserDao {
  import opened Seqs
  import opened Models
  import opened Database

  function GetUserById(db: Db, id: int): (r: Option<User>)
    reads db
    ensures r.None? <==> id !in db.UserIds()
    ensures r.Some? ==> r.value in db.users && r.value.id == id
  {
    First(db.users, (u: User) => u.id == id)
  }

  /** The first user in row order with this email, none when no user has it. */
  function GetUserByEmail(db: Db, email: string): (r: Option<User>)
    reads db
    ensures r.None? <==> email !in db.Emails()
    ensures r.Some? ==> r.value in db.users && r.value.email == email
    ensures r.Some? ==> exists k :: 0 <= k < |db.users| && db.users[k] == r.value
                                    && forall j :: 0 <= j < k ==> db.users[j].email != email
  {
    First(db.users, (u: User) => u.email == email)
  }

  /** The first user in row order with this username, none when no user has it. */
  function GetUserByUsername(db: Db, username: string): (r: Option<User>)
    reads db
    ensures r.None? <==> username !in db.Usernames()
    ensures r.Some? ==> r.value in db.users && r.value.username == username
    ensures r.Some? ==> exists k :: 0 <= k < |db.users| && db.users[k] == r.value
                                    && forall j :: 0 <= j < k ==> db.users[j].username != username
  {
    First(db.users, (u: User) => u.username == username)
  }

  /** Inserts a user with roles (is_user, not moderator, not admin); the
      store refuses an email or username already in use. */
  method CreateUser(db: Db, email: string, password: string, username: string) returns (r: Commit<User>)
    requires db.Valid()
    modifies db
    ensures db.Valid()
    ensures r.IntegrityError? <==> email in old(db.Emails()) || username in old(db.Usernames())
    ensures r.IntegrityError? ==> unchanged(db)
    ensures r.Committed? ==>
      && r.value.id !in old(db.UserIds())
      && r.value.email == email && r.value.password == password && r.value.username == username
      && r.value.is_user && !r.value.is_moderator && !r.value.is_admin
      && db.users == old(db.users) + [r.value]
      && db.movies == old(db.movies) && db.reviews == old(db.reviews)
      && db.ratings == old(db.ratings) && db.favorites == old(db.favorites)
  {
    if email in db.Emails() || username in db.Usernames() {
      return IntegrityError;
    }
    var user := User(NextKey(db.users, UserId), email, password, username, true, false, false);
    UniqueAfterAppend(db.users, user, UserId);
    UniqueAfterAppend(db.users, user, UserEmail);
    UniqueAfterAppend(db.users, user, UserName);
    ghost var before := db.UserIds();
    db.Store(db.users + [user], db.movies, db.reviews, db.ratings, db.favorites);
    assert before <= db.UserIds();
    return Committed(user);
  }

  /** The three columns a profile update may name. */
  datatype UserField = EmailField | PasswordField | UsernameField

  /** `setattr(user, field, value)`, done only when `value is not None`. */
  function SetField(u: User, field: UserField, value: Option<string>): User {
    match value
    case None => u
    case Some(v) =>
      match field
      case EmailField => u.(email := v)
      case PasswordField => u.(password := v)
      case UsernameField => u.(username := v)
  }

  /** The user once the entries of `updates` have been applied in order. */
  function ApplyUpdates(u: User, updates: seq<(UserField, Option<string>)>): User
    decreases |updates|
  {
    if |updates| == 0 then u
    else
      var last := updates[|updates| - 1];
      SetField(ApplyUpdates(u, updates[..|updates| - 1]), last.0, last.1)
  }

  /** The last value other than None that `updates` supplies for `field`. */
  function Supplied(updates: seq<(UserField, Option<string>)>, field: UserField): Option<string>
    decreases |updates|
  {
    if |updates| == 0 then None
    else
      var last := updates[|updates| - 1];
      if last.0 == field && last.1.Some? then last.1 else Supplied(updates[..|updates| - 1], field)
  }

  function OrElse(o: Option<string>, otherwise: string): string {
    if o.Some? then o.value else otherwise
  }

  /** A partial update sets each named column to the last value supplied for
      it and leaves every other column (id, role flags) as it was. */
  lemma {:induction false} ApplyUpdatesSetsSuppliedFields(u: User, updates: seq<(UserField, Option<string>)>)
    ensures ApplyUpdates(u, updates) ==
      u.(email := OrElse(Supplied(updates, EmailField), u.email),
         password := OrElse(Supplied(updates, PasswordField), u.password),
         username := OrElse(Supplied(updates, UsernameField), u.username))
    decreases |updates|
  {
    if |updates| > 0 {
      ApplyUpdatesSetsSuppliedFields(u, updates[..|updates| - 1]);
    }
  }

  /** An update whose values are all None changes nothing. */
  lemma {:induction false} NothingSuppliedKeepsUser(u: User, updates: seq<(UserField, Option<string>)>)
    requires forall i :: 0 <= i < |updates| ==> updates[i].1.None?
    ensures ApplyUpdates(u, updates) == u
    decreases |updates|
  {
    if |updates| > 0 {
      NothingSuppliedKeepsUser(u, updates[..|updates| - 1]);
    }
  }

  /** The `for field, value in ...: setattr(...)` loop over a copy of the
      stored row. */
  method ApplyInPlace(user: User, updates: seq<(UserField, Option<string>)>) returns (u: User)
    ensures u == ApplyUpdates(user, updates)
  {
    u := user;
    var i := 0;
    while i < |updates|
      invariant 0 <= i <= |updates|
      invariant u == ApplyUpdates(user, updates[..i])
    {
      var (field, value) := updates[i];
      if value.Some? {
        match field
        case EmailField => u := u.(email := value.value);
        case PasswordField => u := u.(password := value.value);
        case UsernameField => u := u.(username := value.value);
      }
      assert updates[..i + 1][..i] == updates[..i];
      i := i + 1;
    }
    assert updates[..|updates|] == updates;
  }

  /** Some other user already holds the email or username of `updated`. */
  predicate Collides(users: seq<User>, id: int, updated: User) {
    exists v :: v in users && v.id != id && (v.email == updated.email || v.username == updated.username)
  }

  /** The users table with the row whose id is `id` replaced by `u`, every
      other row and the row order kept. */
  function Replaced(users: seq<User>, id: int, u: User): seq<User> {
    seq(|users|, i requires 0 <= i < |users| => if users[i].id == id then u else users[i])
  }

  /** Finds the user, sets each supplied field in turn, then commits; the
      store refuses a commit that would duplicate an email or username. */
  method UpdateUser(db: Db, id: int, updates: seq<(UserField, Option<string>)>) returns (r: Option<Commit<User>>)
    requires db.Valid()
    modifies db
    ensures db.Valid()
    ensures r.None? <==> id !in old(db.UserIds())
    ensures r.None? || r == Some(IntegrityError) ==> unchanged(db)
    ensures r.Some? ==>
      var updated := ApplyUpdates(old(GetUserById(db, id)).value, updates);
      && (r.value.IntegrityError? <==> Collides(old(db.users), id, updated))
      && (r.value.Committed? ==>
            && r.value.value == updated
            && db.users == Replaced(old(db.users), id, updated)
            && db.movies == old(db.movies) && db.reviews == old(db.reviews)
            && db.ratings == old(db.ratings) && db.favorites == old(db.favorites))
  {
    var found := FirstIndex(db.users, (u: User) => u.id == id);
    if found.None? {
      return None;
    }
    var k := found.value;
    assert GetUserById(db, id) == Some(db.users[k]);
    var user := ApplyInPlace(db.users[k], updates);
    ApplyUpdatesSetsSuppliedFields(db.users[k], updates);
    if exists v :: v in db.users && v.id != id && (v.email == user.email || v.username == user.username) {
      return Some(IntegrityError);
    }
    forall j | 0 <= j < |db.users| && j != k
      ensures db.users[j].email != user.email && db.users[j].username != user.username
    {
      assert db.users[j] in db.users;
      assert db.users[j].id != db.users[k].id;
    }
    ReplaceUserKeepsConsistent(db.users, db.movies, db.reviews, db.ratings, db.favorites, k, user);
    db.Store(db.users[k := user], db.movies, db.reviews, db.ratings, db.favorites);
    assert db.users == Replaced(old(db.users), id, user);
    return Some(Committed(user));
  }

  /** Deletes the user; the "all, delete-orphan" relationships remove the
      user's reviews, ratings and favorites with it. */
  method DeleteUser(db: Db, id: int) returns (deleted: bool)
    requires db.Valid()
    modifies db
    ensures db.Valid()
    ensures deleted <==> id in old(db.UserIds())
    ensures !deleted ==> unchanged(db)
    ensures deleted ==>
      && db.users == WhereNot(old(db.users), UserId, id)
      && |db.users| == |old(db.users)| - 1
      && db.movies == old(db.movies)
      && db.reviews == WhereNot(old(db.reviews), ReviewUser, id)
      && db.ratings == WhereNot(old(db.ratings), RatingUser, id)
      && db.favorites == WhereNot(old(db.favorites), FavoriteUser, id)
  {
    if id !in db.UserIds() {
      return false;
    }
    WhereNotRemovesOne(db.users, UserId, id);
    CascadeUserKeepsConsistent(db.users, db.movies, db.reviews, db.ratings, db.favorites, id);
    db.Store(WhereNot(db.users, UserId, id), db.movies, WhereNot(db.reviews, ReviewUser, id),
             WhereNot(db.ratings, RatingUser, id), WhereNot(db.favorites, FavoriteUser, id));
    return true;
  }

  /** `offset(skip).limit(limit)` over the users table: the users from the
      offset on, in row order, as many as the limit allows. */
  function GetAllUsers(db: Db, skip: int, limit: int): (r: seq<User>)
    reads db
    ensures limit >= 0 ==> |r| <= limit
    ensures |r| == PageSize(|db.users|, skip, limit)
    ensures forall i :: 0 <= i < |r| ==> Offset(|db.users|, skip) + i < |db.users| && r[i] == db.users[Offset(|db.users|, skip) + i]
    ensures skip <= 0 && (limit < 0 || |db.users| <= limit) ==> r == db.users
  {
    Page(db.users, skip, limit)
  }
}
