/** Route handlers under /api/users: register, login, the current user,
    profile update and account delete. */
module UsersRouter {
  import opened Seqs
  import opened Models
  import opened Database
  import opened Http
  import UserDao

  /** Python truthiness of an optional string: present and non-empty. */
  predicate Truthy(o: Option<string>) { o.Some? && o.value != "" }

  /** POST /api/users/register, as written: only the email is checked
      before the insert, so a username already in use reaches the store,
      which refuses it, and the refusal surfaces as a 500. */
  method Register(db: Db, email: string, password: string, username: string) returns (r: Response<User>)
    requires db.Valid()
    modifies db
    ensures db.Valid()
    ensures r == Err(400, "Email already exists") <==> email in old(db.Emails())
    ensures email !in old(db.Emails()) && username in old(db.Usernames()) ==>
      r == Err(500, INTERNAL_SERVER_ERROR)
    ensures r.Err? ==> unchanged(db)
    ensures r.Ok? <==> email !in old(db.Emails()) && username !in old(db.Usernames())
    ensures r.Ok? ==>
      && r.value.email == email && r.value.password == password && r.value.username == username
      && r.value.is_user && !r.value.is_moderator && !r.value.is_admin
      && r.value.id !in old(db.UserIds())
      && db.users == old(db.users) + [r.value]
      && db.movies == old(db.movies) && db.reviews == old(db.reviews)
      && db.ratings == old(db.ratings) && db.favorites == old(db.favorites)
  {
    var existing := UserDao.GetUserByEmail(db, email);
    if existing.Some? {
      return Err(400, "Email already exists");
    }
    var created := UserDao.CreateUser(db, email, password, username);
    if created.IntegrityError? {
      return Err(500, INTERNAL_SERVER_ERROR);
    }
    return Ok(created.value);
  }

  /** Registration with the username checked as well, as the unique
      username column calls for: every refusal is a 400 and none a 500. */
  method RegisterChecked(db: Db, email: string, password: string, username: string) returns (r: Response<User>)
    requires db.Valid()
    modifies db
    ensures db.Valid()
    ensures r == Err(400, "Email already exists") <==> email in old(db.Emails())
    ensures r == Err(400, "Username already exists") <==>
      email !in old(db.Emails()) && username in old(db.Usernames())
    ensures r.Err? ==> r.status == 400 && unchanged(db)
    ensures r.Ok? <==> email !in old(db.Emails()) && username !in old(db.Usernames())
    ensures r.Ok? ==>
      && r.value.email == email && r.value.password == password && r.value.username == username
      && r.value.is_user && !r.value.is_moderator && !r.value.is_admin
      && r.value.id !in old(db.UserIds())
      && db.users == old(db.users) + [r.value]
      && db.movies == old(db.movies) && db.reviews == old(db.reviews)
      && db.ratings == old(db.ratings) && db.favorites == old(db.favorites)
  {
    var existing := UserDao.GetUserByEmail(db, email);
    if existing.Some? {
      return Err(400, "Email already exists");
    }
    var taken := UserDao.GetUserByUsername(db, username);
    if taken.Some? {
      return Err(400, "Username already exists");
    }
    var created := UserDao.CreateUser(db, email, password, username);
    if created.IntegrityError? {
      return Err(500, INTERNAL_SERVER_ERROR);
    }
    return Ok(created.value);
  }

  /** POST /api/users/login: `verify(plain, hash)` is the password check.
      An unknown username and a wrong password give the same answer. */
  function Login(db: Db, username: string, password: string, verify: (string, string) -> bool): (r: Response<User>)
    reads db
    ensures r.Err? ==> r == Err(401, "Invalid credentials")
    ensures r.Ok? <==> exists u :: u in db.users && u.username == username && verify(password, u.password)
                                   && UserDao.GetUserByUsername(db, username) == Some(u)
    ensures r.Ok? ==> r.value in db.users && r.value.username == username && verify(password, r.value.password)
    ensures username !in db.Usernames() ==> r.Err?
  {
    match UserDao.GetUserByUsername(db, username)
    case None => Err(401, "Invalid credentials")
    case Some(user) => if verify(password, user.password) then Ok(user) else Err(401, "Invalid credentials")
  }

  /** In a consistent store the username names one user, so login succeeds
      exactly when that user's password verifies. */
  lemma LoginChecksTheNamedUser(db: Db, user: User, password: string, verify: (string, string) -> bool)
    requires db.Valid()
    requires user in db.users
    ensures Login(db, user.username, password, verify).Ok? <==> verify(password, user.password)
    ensures Login(db, user.username, password, verify).Ok? ==> Login(db, user.username, password, verify).value == user
  {
    var found := UserDao.GetUserByUsername(db, user.username);
    UniqueKeyIdentifies(db.users, UserName, found.value, user);
  }

  /** GET /api/users/me. */
  function GetCurrentUser(db: Db, user_id: int): (r: Response<User>)
    reads db
    ensures r.Err? <==> user_id !in db.UserIds()
    ensures r.Err? ==> r == Err(404, "User not found")
    ensures r.Ok? ==> r.value in db.users && r.value.id == user_id
  {
    match UserDao.GetUserById(db, user_id)
    case None => Err(404, "User not found")
    case Some(user) => Ok(user)
  }

  /** The check before an update: a truthy value different from the
      user's own that some user already holds. */
  predicate Taken(value: Option<string>, own: string, used: set<string>) {
    Truthy(value) && value.value != own && value.value in used
  }

  function ProfileUpdates(email: Option<string>, password: Option<string>, username: Option<string>)
    : seq<(UserDao.UserField, Option<string>)>
  {
    [(UserDao.EmailField, email), (UserDao.PasswordField, password), (UserDao.UsernameField, username)]
  }

  /** Each column takes the supplied value, even an empty one, and keeps
      its own value when nothing is supplied. */
  function Updated(user: User, email: Option<string>, password: Option<string>, username: Option<string>): User {
    user.(email := UserDao.OrElse(email, user.email),
          password := UserDao.OrElse(password, user.password),
          username := UserDao.OrElse(username, user.username))
  }

  lemma ProfileUpdatesApply(user: User, email: Option<string>, password: Option<string>, username: Option<string>)
    ensures UserDao.ApplyUpdates(user, ProfileUpdates(email, password, username)) == Updated(user, email, password, username)
  {
    var updates := ProfileUpdates(email, password, username);
    UserDao.ApplyUpdatesSetsSuppliedFields(user, updates);
    assert updates[..2] == [updates[0], updates[1]];
    assert updates[..2][..1] == [updates[0]];
    assert [updates[0]][..0] == [];
    assert UserDao.Supplied([updates[0]], UserDao.EmailField) == email;
    assert UserDao.Supplied([updates[0]], UserDao.PasswordField) == None;
    assert UserDao.Supplied([updates[0]], UserDao.UsernameField) == None;
    assert UserDao.Supplied(updates[..2], UserDao.PasswordField) == password;
    assert UserDao.Supplied(updates[..2], UserDao.UsernameField) == None;
    assert UserDao.Supplied(updates[..2], UserDao.EmailField) == email;
  }

  /** An email and a username that are each the user's own or held by
      nobody cannot clash with another user. */
  lemma NoClashWithOthers(users: seq<User>, user: User, updated: User)
    requires UniqueBy(users, UserId) && UniqueBy(users, UserEmail) && UniqueBy(users, UserName)
    requires user in users
    requires updated.email == user.email || forall v :: v in users ==> v.email != updated.email
    requires updated.username == user.username || forall v :: v in users ==> v.username != updated.username
    ensures !UserDao.Collides(users, user.id, updated)
  {
    forall v | v in users && v.id != user.id
      ensures v.email != updated.email && v.username != updated.username
    {
      if v.email == updated.email {
        UniqueKeyIdentifies(users, UserEmail, v, user);
      }
      if v.username == updated.username {
        UniqueKeyIdentifies(users, UserName, v, user);
      }
    }
  }

  /** PUT /api/users/{user_id}: 404 for an unknown user, 400 for an email
      or username another user holds, then the partial update. Empty
      strings skip the checks but are still written, so only they can make
      the store refuse the update (500). */
  method UpdateUser(db: Db, user_id: int, email: Option<string>, password: Option<string>, username: Option<string>)
    returns (r: Response<User>)
    requires db.Valid()
    modifies db
    ensures db.Valid()
    ensures r == Err(404, "User not found") <==> user_id !in old(db.UserIds())
    ensures user_id in old(db.UserIds()) ==>
      var user := old(UserDao.GetUserById(db, user_id)).value;
      && (r == Err(400, "Email already exists") <==> Taken(email, user.email, old(db.Emails())))
      && (r == Err(400, "Username already exists") <==>
            !Taken(email, user.email, old(db.Emails())) && Taken(username, user.username, old(db.Usernames())))
      && (!Taken(email, user.email, old(db.Emails())) && !Taken(username, user.username, old(db.Usernames())) ==>
            (r == Err(500, INTERNAL_SERVER_ERROR) <==>
               UserDao.Collides(old(db.users), user_id, Updated(user, email, password, username))))
      && (r.Ok? <==>
            && !Taken(email, user.email, old(db.Emails())) && !Taken(username, user.username, old(db.Usernames()))
            && !UserDao.Collides(old(db.users), user_id, Updated(user, email, password, username)))
      && (r.Ok? ==>
            && r.value == Updated(user, email, password, username)
            && db.users == UserDao.Replaced(old(db.users), user_id, r.value))
    ensures r.Err? && r.status == 500 ==> (email.Some? && email.value == "") || (username.Some? && username.value == "")
    ensures r.Err? ==> unchanged(db)
    ensures r.Ok? ==>
      && db.movies == old(db.movies) && db.reviews == old(db.reviews)
      && db.ratings == old(db.ratings) && db.favorites == old(db.favorites)
  {
    var found := UserDao.GetUserById(db, user_id);
    if found.None? {
      return Err(404, "User not found");
    }
    var user := found.value;
    if Truthy(email) && email.value != user.email {
      var existing := UserDao.GetUserByEmail(db, email.value);
      if existing.Some? {
        return Err(400, "Email already exists");
      }
    }
    if Truthy(username) && username.value != user.username {
      var existing := UserDao.GetUserByUsername(db, username.value);
      if existing.Some? {
        return Err(400, "Username already exists");
      }
    }
    r := SaveProfile(db, user, email, password, username);
  }

  /** The update itself, once the user is found and the checks have passed:
      the store refuses it only when an empty email or username clashes. */
  method SaveProfile(db: Db, user: User, email: Option<string>, password: Option<string>, username: Option<string>)
    returns (r: Response<User>)
    requires db.Valid()
    requires user in db.users
    requires !Taken(email, user.email, db.Emails()) && !Taken(username, user.username, db.Usernames())
    modifies db
    ensures db.Valid()
    ensures r.Err? <==> UserDao.Collides(old(db.users), user.id, Updated(user, email, password, username))
    ensures r.Ok? ==>
      && r.value == Updated(user, email, password, username)
      && db.users == UserDao.Replaced(old(db.users), user.id, r.value)
      && db.movies == old(db.movies) && db.reviews == old(db.reviews)
      && db.ratings == old(db.ratings) && db.favorites == old(db.favorites)
    ensures r.Err? ==>
      && r == Err(500, INTERNAL_SERVER_ERROR)
      && ((email.Some? && email.value == "") || (username.Some? && username.value == ""))
      && unchanged(db)
  {
    assert UserDao.GetUserById(db, user.id) == Some(user) by {
      UniqueKeyIdentifies(db.users, UserId, UserDao.GetUserById(db, user.id).value, user);
    }
    ProfileUpdatesApply(user, email, password, username);
    if !(email.Some? && email.value == "") && !(username.Some? && username.value == "") {
      NoClashWithOthers(db.users, user, Updated(user, email, password, username));
    }
    var updated := UserDao.UpdateUser(db, user.id, ProfileUpdates(email, password, username));
    match updated
    case None =>
      assert false;
    case Some(IntegrityError) =>
      return Err(500, INTERNAL_SERVER_ERROR);
    case Some(Committed(u)) =>
      return Ok(u);
  }

  /** DELETE /api/users/{user_id}: 404 for an unknown user, otherwise the
      cascading delete; its failure (500) cannot happen after the check. */
  method DeleteUser(db: Db, user_id: int) returns (r: Response<StatusBody>)
    requires db.Valid()
    modifies db
    ensures db.Valid()
    ensures r.Err? <==> user_id !in old(db.UserIds())
    ensures r.Err? ==> r == Err(404, "User not found") && unchanged(db)
    ensures r.Ok? ==>
      && r.value == StatusBody("deleted", "user_id", user_id)
      && user_id !in db.UserIds()
      && db.users == WhereNot(old(db.users), UserId, user_id)
      && db.movies == old(db.movies)
      && db.reviews == WhereNot(old(db.reviews), ReviewUser, user_id)
      && db.ratings == WhereNot(old(db.ratings), RatingUser, user_id)
      && db.favorites == WhereNot(old(db.favorites), FavoriteUser, user_id)
      && (forall x :: x in db.reviews ==> x.user_id != user_id)
      && (forall x :: x in db.ratings ==> x.user_id != user_id)
      && (forall x :: x in db.favorites ==> x.user_id != user_id)
  {
    var user := UserDao.GetUserById(db, user_id);
    if user.None? {
      return Err(404, "User not found");
    }
    var success := UserDao.DeleteUser(db, user_id);
    if !success {
      return Err(500, "Failed to delete user");
    }
    return Ok(StatusBody("deleted", "user_id", user_id));
  }
}
