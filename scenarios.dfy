/** Request sequences of the test suite, replayed against the handlers'
    contracts: what a client can conclude from them alone. Each scenario
    starts from a store in the state the test's fixtures leave it in, with
    `g.user` already resolved where the test has logged in. */
module Scenarios {
  import opened Types
  import opened Auth
  import opened Handlers

  /** The fields a registration form posts. */
  function RegistrationForm(username: string, email: string, password: string): (form: Form)
    ensures "username" in form && "email" in form && "password" in form
    ensures form["username"] == username && form["email"] == email && form["password"] == password
  {
    map["username" := username, "email" := email, "password" := password]
  }

  /** The registration form of the test suite passes validation, and its
      address is outside the trusted domain. */
  lemma OrdinaryRegistrationForm()
    ensures ValidateRegistration(Some("abc"), Some("abc@email.com"), Some("abcdefgh")).None?
    ensures !IsAdmin("abc@email.com")
  {
    var email := "abc@email.com";
    assert email[3] == '@' && email[9] == '.';
    assert OnlyAtSignAt(email, 3);
    assert email[|email| - |AdminSuffix|..][1] != AdminSuffix[1];
  }

  /** A registration form with an address on the trusted domain passes
      validation and makes an administrator. */
  lemma AdminRegistrationForm()
    ensures ValidateRegistration(Some("admin"), Some("test@imdb.com"), Some("12345678")).None?
    ensures IsAdmin("test@imdb.com")
  {
    WellFormedExample();
    assert "test@imdb.com"[4..] == AdminSuffix;
  }

  /** A registration whose form passes validation and whose username is
      new adds exactly that row and redirects to the login page. */
  method RegisterNew(app: App, username: string, email: string, password: string) returns (response: Response)
    requires app.Valid() && username !in app.users
    requires ValidateRegistration(Some(username), Some(email), Some(password)).None?
    modifies app
    ensures app.Valid() && response == Redirect(LoginPage)
    ensures username in app.users && app.users[username].email == email
    ensures app.users[username].isAdmin == IsAdmin(email)
    ensures CheckPasswordHash(app.users[username].password, password)
    ensures forall name :: name in old(app.users) ==> name in app.users && app.users[name] == old(app.users)[name]
    ensures forall name :: name in app.users ==> name in old(app.users) || name == username
    ensures unchanged(app`movies, app`session, app`currentUser)
  {
    var form := RegistrationForm(username, email, password);
    response := app.Register(Post(form), 7);
  }

  /** Registration with a valid form and a new username: the row is written,
      is not an administrator's (the address is outside the trusted domain),
      accepts its password, and the client is sent to the login page. */
  method SignUp(app: App) returns (response: Response)
    requires app.Valid() && "abc" !in app.users
    modifies app
    ensures app.Valid()
    ensures response == Redirect(LoginPage)
    ensures "abc" in app.users && !app.users["abc"].isAdmin && app.users["abc"].email == "abc@email.com"
    ensures CheckPasswordHash(app.users["abc"].password, "abcdefgh")
    ensures forall name :: name in old(app.users) ==> name in app.users && app.users[name] == old(app.users)[name]
    ensures forall name :: name in app.users ==> name in old(app.users) || name == "abc"
    ensures unchanged(app`movies, app`session, app`currentUser)
  {
    OrdinaryRegistrationForm();
    response := RegisterNew(app, "abc", "abc@email.com", "abcdefgh");
  }

  /** Registration with an address on the trusted domain makes the new row
      an administrator's. */
  method SignUpAdmin(app: App) returns (response: Response)
    requires app.Valid() && "admin" !in app.users
    modifies app
    ensures app.Valid()
    ensures response == Redirect(LoginPage)
    ensures "admin" in app.users && app.users["admin"].isAdmin
    ensures CheckPasswordHash(app.users["admin"].password, "12345678")
    ensures forall name :: name in old(app.users) ==> name in app.users && app.users[name] == old(app.users)[name]
    ensures forall name :: name in app.users ==> name in old(app.users) || name == "admin"
    ensures unchanged(app`movies, app`session, app`currentUser)
  {
    AdminRegistrationForm();
    response := RegisterNew(app, "admin", "test@imdb.com", "12345678");
  }

  /** Login with the right password, then the next request's user
      resolution: the session holds the account's id, and the request sees
      that row as its current user. */
  method LogIn(app: App) returns (user: User)
    requires app.Valid()
    requires "test" in app.users && CheckPasswordHash(app.users["test"].password, "test")
    modifies app
    ensures app.Valid() && app.currentUser == Some(user)
    ensures "test" in app.users && user == app.users["test"]
    ensures app.session == Some(user.id)
    ensures unchanged(app`users, app`movies)
  {
    var credentials := map["username" := "test", "password" := "test"];
    assert credentials["username"] == "test" && credentials["password"] == "test";
    var loggedIn := app.Login(Post(credentials));
    assert app.session == Some(app.users["test"].id);
    app.LoadLoggedInUser();
    assert HasUserId(app.users, app.session.value);
    user := app.currentUser.value;
  }

  /** A wrong password and an unknown username get the same notice, and
      neither signs anyone in. */
  method FailedLogins(app: App) returns (wrongPassword: Response, unknownUser: Response)
    requires app.Valid() && app.session.None?
    requires "test" in app.users && !CheckPasswordHash(app.users["test"].password, "incorrect")
    requires "unknown" !in app.users
    modifies app
    ensures wrongPassword == unknownUser == Render(LoginTemplate, Some(InvalidCredentials))
    ensures app.session.None?
    ensures unchanged(app`users, app`movies, app`currentUser)
  {
    wrongPassword := app.Login(Post(map["username" := "test", "password" := "incorrect"]));
    unknownUser := app.Login(Post(map["username" := "unknown", "password" := "12345678"]));
  }

  /** A logged-in user adds a movie: the client is sent to the movie list,
      and the table gains exactly that movie, owned by the user. */
  method AddMovie(app: App) returns (added: Response, id: int)
    requires app.Valid() && app.currentUser.Some?
    modifies app
    ensures app.Valid()
    ensures added == Redirect(HomePage)
    ensures id !in old(app.movies) && id in app.movies && |app.movies| == |old(app.movies)| + 1
    ensures app.currentUser.Some? && app.movies[id] == Movie("test title", "my cool plot", 1, app.currentUser.value.id)
    ensures unchanged(app`users, app`session, app`currentUser)
  {
    id := app.nextMovieId;
    var form := map["movie_title" := "test title", "plot" := "my cool plot"];
    assert form["movie_title"] == "test title" && form["plot"] == "my cool plot";
    added := app.Add(Post(form), 1);
  }

  /** A logged-in user, administrator or not, updates the title and plot of
      movie 1; nothing else in the table changes. */
  method UpdateMovie(app: App) returns (updated: Response)
    requires app.Valid() && app.currentUser.Some? && 1 in app.movies
    modifies app
    ensures app.Valid()
    ensures updated == Redirect(HomePage)
    ensures 1 in app.movies && app.movies[1].title == "A Test Movie" && app.movies[1].plot == "A new plot for A Test Movie"
    ensures app.movies[1].created == old(app.movies[1].created) && app.movies[1].addedBy == old(app.movies[1].addedBy)
    ensures forall id :: id != 1 && id in old(app.movies) ==> id in app.movies && app.movies[id] == old(app.movies[id])
    ensures app.movies.Keys == old(app.movies.Keys)
    ensures unchanged(app`users, app`session, app`currentUser)
  {
    var form := map["movie_title" := "A Test Movie", "plot" := "A new plot for A Test Movie"];
    assert form["movie_title"] == "A Test Movie" && form["plot"] == "A new plot for A Test Movie";
    updated := app.Update(1, Post(form));
  }

  /** A logged-in user who is not an administrator cannot delete: 403, and
      the one movie stays. */
  method DeleteNotAdmin(app: App) returns (deleted: Response)
    requires app.Valid() && app.currentUser.Some? && !app.currentUser.value.isAdmin
    requires app.movies.Keys == {1}
    modifies app
    ensures deleted == Forbidden
    ensures unchanged(app`movies) && |app.movies| == 1
    ensures unchanged(app`users, app`session, app`currentUser)
  {
    deleted := app.Delete(1);
  }

  /** An administrator deletes the one movie: the client is sent to the
      movie list, the table is empty, and deleting it again is a 404. */
  method DeleteMovie(app: App) returns (deleted: Response, again: Response)
    requires app.Valid() && app.currentUser.Some? && app.currentUser.value.isAdmin
    requires app.movies.Keys == {1}
    modifies app
    ensures deleted == Redirect(HomePage)
    ensures app.movies == map[] && again == NotFound
    ensures unchanged(app`users, app`session, app`currentUser)
  {
    deleted := app.Delete(1);
    assert app.movies.Keys == {};
    again := app.Delete(1);
  }

  /** An administrator's delete undoes their add: both succeed, and the
      table ends as it began. */
  method AddThenDelete(app: App) returns (added: Response, deleted: Response)
    requires app.Valid() && app.currentUser.Some? && app.currentUser.value.isAdmin
    modifies app
    ensures added == deleted == Redirect(HomePage)
    ensures app.movies == old(app.movies)
    ensures unchanged(app`users, app`session, app`currentUser)
  {
    var id := app.nextMovieId;
    var form := map["movie_title" := "test title", "plot" := "my cool plot"];
    assert "movie_title" in form && "plot" in form;
    added := app.Add(Post(form), 1);
    assert id in app.movies;
    deleted := app.Delete(id);
  }

  /** Without a logged-in user every movie handler redirects to the login
      page, and no table or session changes. */
  method Anonymous(app: App, movieId: int) returns (index: Response, add: Response, update: Response, delete: Response)
    requires app.Valid() && app.currentUser.None?
    modifies app
    ensures index == add == update == delete == Redirect(LoginPage)
    ensures unchanged(app`movies, app`users, app`session, app`currentUser)
  {
    index := app.Index();
    add := app.Add(Post(map["movie_title" := "t", "plot" := "p"]), 0);
    update := app.Update(movieId, Post(map["movie_title" := "t", "plot" := "p"]));
    delete := app.Delete(movieId);
  }
}
