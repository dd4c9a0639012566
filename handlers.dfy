/** The request handlers of the two blueprints as guarded steps of one state
    machine. `App` holds what a request can see and change: the signed
    session cookie (only its `user_id`), Flask's `g.user` for the current
    request, and the `user` and `movie` tables. Each handler is one
    sequential request; `LoadLoggedInUser` is the step Flask runs before each
    of them. */
module Handlers {
  import opened Types
  import opened Auth
  import opened Movies

  class App {
    /** `session["user_id"]`, if set. */
    var session: Option<int>
    /** `g.user`: the user row resolved at the start of the request. */
    var currentUser: Option<User>
    /** The `user` table, keyed by its unique username. */
    var users: map<string, User>
    /** The `movie` table, keyed by `movie_id`. */
    var movies: map<int, Movie>
    /** The keys the store hands to the next inserted rows. */
    var nextUserId: int
    var nextMovieId: int

    /** The invariant the handlers keep. The store enforces the unique
        username and the unique `user_id` key (the counters stand for its key
        assignment, so every key is below the next one to hand out). That
        every movie's `added_by` names a user and that `g.user` is a row of
        the user table hold because no handler deletes a user and `added_by`
        always comes from `g.user`. */
    ghost predicate Valid()
      reads this
    {
      0 < nextUserId && 0 < nextMovieId &&
      (forall name :: name in users ==> users[name].username == name && 0 < users[name].id < nextUserId) &&
      (forall a, b :: a in users && b in users && users[a].id == users[b].id ==> a == b) &&
      (forall id :: id in movies ==> 0 < id < nextMovieId && HasUserId(users, movies[id].addedBy)) &&
      (currentUser.Some? ==> currentUser.value.username in users && users[currentUser.value.username] == currentUser.value)
    }

    /** A freshly initialised store and a request with no session. */
    constructor ()
      ensures Valid()
      ensures session.None? && currentUser.None? && users == map[] && movies == map[]
    {
      session := None;
      currentUser := None;
      users := map[];
      movies := map[];
      nextUserId := 1;
      nextMovieId := 1;
    }

    /** `load_logged_in_user`: resolve `g.user` from the session; an id that
        no row has any more leaves the request anonymous, without an error. */
    method LoadLoggedInUser()
      requires Valid()
      modifies this`currentUser
      ensures Valid()
      ensures session.None? ==> currentUser.None?
      ensures session.Some? ==> (currentUser.Some? <==> HasUserId(users, session.value))
      ensures currentUser.Some? ==> currentUser.value.id == session.value && currentUser.value in users.Values
    {
      match session
      case None =>
        currentUser := None;
      case Some(id) =>
        if exists name :: name in users && users[name].id == id {
          var name :| name in users && users[name].id == id;
          currentUser := Some(users[name]);
        } else {
          currentUser := None;
        }
    }

    /** `register`: on a POST, validate, then insert the user unless the
        username is taken. Only a successful registration changes the table,
        and it adds exactly the new row; it does not log the user in. */
    method Register(request: Request, salt: nat) returns (response: Response)
      requires Valid()
      modifies this`users, this`nextUserId
      ensures Valid()
      ensures request.Get? ==> response == Render(RegisterTemplate, None)
      ensures request.Post? && !("username" in request.form && "email" in request.form && "password" in request.form) ==>
        response == BadRequest
      ensures request.Post? && "username" in request.form && "email" in request.form && "password" in request.form ==>
        var form := request.form;
        var error := ValidateRegistration(Some(form["username"]), Some(form["email"]), Some(form["password"]));
        error.Some? ==> response == Render(RegisterTemplate, error)
      ensures request.Post? && "username" in request.form && "email" in request.form && "password" in request.form ==>
        var form := request.form;
        ValidateRegistration(Some(form["username"]), Some(form["email"]), Some(form["password"])).None? && form["username"] in old(users) ==>
          response == Render(RegisterTemplate, Some(DuplicateUser(form["username"])))
      ensures response == Redirect(LoginPage) <==>
        request.Post? && "username" in request.form && "email" in request.form && "password" in request.form &&
        ValidateRegistration(Some(request.form["username"]), Some(request.form["email"]), Some(request.form["password"])).None? &&
        request.form["username"] !in old(users)
      ensures response == Redirect(LoginPage) ==>
        var form := request.form;
        (forall n :: n in old(users) ==> old(users)[n].id != old(nextUserId)) &&
        users == old(users)[form["username"] := User(old(nextUserId), form["username"], form["email"],
                                                     GeneratePasswordHash(form["password"], salt), IsAdmin(form["email"]))]
      ensures response != Redirect(LoginPage) ==> users == old(users) && nextUserId == old(nextUserId)
    {
      if request.Get? {
        return Render(RegisterTemplate, None);
      }
      var form := request.form;
      if !("username" in form && "email" in form && "password" in form) {
        return BadRequest;
      }
      var name, email, password := form["username"], form["email"], form["password"];
      var error := ValidateRegistration(Some(name), Some(email), Some(password));
      if error.Some? {
        return Render(RegisterTemplate, error);
      }
      if name in users {
        return Render(RegisterTemplate, Some(DuplicateUser(name)));
      }
      ghost var before := users;
      users := users[name := User(nextUserId, name, email, GeneratePasswordHash(password, salt), IsAdmin(email))];
      nextUserId := nextUserId + 1;
      forall id | id in movies
        ensures HasUserId(users, movies[id].addedBy)
      {
        var n :| n in before && before[n].id == movies[id].addedBy;
        assert users[n] == before[n];
      }
      response := Redirect(LoginPage);
    }

    /** `login`: an unknown username and a wrong password get the same
        notice and leave the session alone; a match replaces the whole
        session by the user's id. `g.user` is not touched. */
    method Login(request: Request) returns (response: Response)
      requires Valid()
      modifies this`session
      ensures Valid()
      ensures request.Get? ==> response == Render(LoginTemplate, None) && session == old(session)
      ensures request.Post? && !("username" in request.form && "password" in request.form) ==>
        response == BadRequest && session == old(session)
      ensures request.Post? && "username" in request.form && "password" in request.form ==>
        var name, password := request.form["username"], request.form["password"];
        if name in users && CheckPasswordHash(users[name].password, password)
        then response == Redirect(HomePage) && session == Some(users[name].id)
        else response == Render(LoginTemplate, Some(InvalidCredentials)) && session == old(session)
    {
      if request.Get? {
        return Render(LoginTemplate, None);
      }
      var form := request.form;
      if !("username" in form && "password" in form) {
        return BadRequest;
      }
      var name, password := form["username"], form["password"];
      if name !in users {
        return Render(LoginTemplate, Some(InvalidCredentials));
      }
      var user := users[name];
      if !CheckPasswordHash(user.password, password) {
        return Render(LoginTemplate, Some(InvalidCredentials));
      }
      session := None;
      session := Some(user.id);
      response := Redirect(HomePage);
    }

    /** `logout`: empty the session whatever it held, so a second logout
        finds it as the first one left it. */
    method Logout() returns (response: Response)
      requires Valid()
      modifies this`session
      ensures Valid()
      ensures session.None? && response == Redirect(HomePage)
    {
      session := None;
      response := Redirect(HomePage);
    }

    /** `_get_movie`: the joined row of a movie, or nothing. The join cannot
        lose a movie, since every `added_by` names a user. */
    method GetMovie(movieId: int) returns (row: Option<MovieRow>)
      requires Valid()
      ensures row.Some? <==> movieId in movies
      ensures row.Some? ==> JoinedRow(row.value, movieId, movies, users)
    {
      if movieId in movies && exists name :: name in users && users[name].id == movies[movieId].addedBy {
        var movie := movies[movieId];
        var name :| name in users && users[name].id == movie.addedBy;
        row := Some(MovieRow(movieId, movie.title, movie.plot, movie.created, name));
      } else {
        row := None;
      }
    }

    /** `index`, behind `login_required`: every movie with its adder's
        username, newest first. The loop stands for the store's
        `ORDER BY created DESC`; rows created at the same time may come in
        any order. */
    method Index() returns (response: Response)
      requires Valid()
      ensures currentUser.None? ==> response == Redirect(LoginPage)
      ensures currentUser.Some? ==> response.RenderIndex? && IsListing(response.movies, movies, users)
    {
      var gate := LoginRequired(currentUser);
      if gate.Some? {
        return gate.value;
      }
      var rows: seq<MovieRow> := [];
      var remaining := movies.Keys;
      while remaining != {}
        invariant ListedSoFar(rows, remaining, movies, users)
        decreases remaining
      {
        NewestExists(movies, remaining);
        var k :| IsNewest(movies, remaining, k);
        var movie := movies[k];
        var name :| name in users && users[name].id == movie.addedBy;
        ListNewest(rows, remaining, movies, users, k, name);
        rows := rows + [MovieRow(k, movie.title, movie.plot, movie.created, name)];
        remaining := remaining - {k};
      }
      ListedAll(rows, movies, users);
      response := RenderIndex(rows);
    }

    /** `add`, behind `login_required`: on a POST whose fields pass the
        check, insert exactly one movie, owned by the current user. */
    method Add(request: Request, created: nat) returns (response: Response)
      requires Valid()
      modifies this`movies, this`nextMovieId
      ensures Valid()
      ensures currentUser.None? ==> response == Redirect(LoginPage)
      ensures currentUser.Some? && request.Get? ==> response == Render(AddTemplate, None)
      ensures currentUser.Some? && request.Post? && !("movie_title" in request.form && "plot" in request.form) ==>
        response == BadRequest
      ensures response == Redirect(HomePage) <==>
        currentUser.Some? && request.Post? && "movie_title" in request.form && "plot" in request.form
      ensures response == Redirect(HomePage) ==>
        old(nextMovieId) !in old(movies) &&
        movies == old(movies)[old(nextMovieId) := Movie(request.form["movie_title"], request.form["plot"], created, currentUser.value.id)] &&
        |movies| == |old(movies)| + 1
      ensures response != Redirect(HomePage) ==> movies == old(movies) && nextMovieId == old(nextMovieId)
    {
      var gate := LoginRequired(currentUser);
      if gate.Some? {
        return gate.value;
      }
      if request.Get? {
        return Render(AddTemplate, None);
      }
      var form := request.form;
      if !("movie_title" in form && "plot" in form) {
        return BadRequest;
      }
      var title, plot := form["movie_title"], form["plot"];
      var error := ValidateMovieRequest(Some(title), Some(plot));
      if error.Some? {
        return Render(AddTemplate, error);
      }
      var owner := currentUser.value;
      assert HasUserId(users, owner.id) by {
        assert users[owner.username].id == owner.id;
      }
      movies := movies[nextMovieId := Movie(title, plot, created, owner.id)];
      nextMovieId := nextMovieId + 1;
      response := Redirect(HomePage);
    }

    /** `update`, behind `login_required`: a missing movie is a 404 before
        the request method or the form is looked at; a successful POST
        changes the title and plot of that one movie and nothing else. Any
        logged-in user may edit any movie. */
    method Update(movieId: int, request: Request) returns (response: Response)
      requires Valid()
      modifies this`movies
      ensures Valid()
      ensures currentUser.None? ==> response == Redirect(LoginPage)
      ensures currentUser.Some? && movieId !in old(movies) ==> response == NotFound
      ensures currentUser.Some? && movieId in old(movies) && request.Get? ==>
        response.RenderMovie? && JoinedRow(response.movie, movieId, movies, users)
      ensures currentUser.Some? && movieId in old(movies) && request.Post? &&
              !("movie_title" in request.form && "plot" in request.form) ==>
                response == BadRequest
      ensures response == Redirect(HomePage) <==>
        currentUser.Some? && movieId in old(movies) && request.Post? &&
        "movie_title" in request.form && "plot" in request.form
      ensures response == Redirect(HomePage) ==>
        movies == old(movies)[movieId := old(movies)[movieId].(title := request.form["movie_title"], plot := request.form["plot"])]
      ensures response != Redirect(HomePage) ==> movies == old(movies)
    {
      var gate := LoginRequired(currentUser);
      if gate.Some? {
        return gate.value;
      }
      var row := GetMovie(movieId);
      if row.None? {
        return NotFound;
      }
      if request.Get? {
        return RenderMovie(row.value);
      }
      var form := request.form;
      if !("movie_title" in form && "plot" in form) {
        return BadRequest;
      }
      var title, plot := form["movie_title"], form["plot"];
      var error := ValidateMovieRequest(Some(title), Some(plot));
      if error.Some? {
        return Render(UpdateTemplate, error);
      }
      movies := movies[movieId := movies[movieId].(title := title, plot := plot)];
      response := Redirect(HomePage);
    }

    /** `delete`, behind `login_required`: existence is checked before the
        admin flag, so a missing movie is a 404 even for a non-admin; only an
        admin removes the movie, and exactly that one. */
    method Delete(movieId: int) returns (response: Response)
      requires Valid()
      modifies this`movies
      ensures Valid()
      ensures currentUser.None? ==> response == Redirect(LoginPage)
      ensures currentUser.Some? && movieId !in old(movies) ==> response == NotFound
      ensures currentUser.Some? && movieId in old(movies) && !currentUser.value.isAdmin ==> response == Forbidden
      ensures response == Redirect(HomePage) <==>
        currentUser.Some? && movieId in old(movies) && currentUser.value.isAdmin
      ensures response == Redirect(HomePage) ==>
        movies == old(movies) - {movieId} && |movies| == |old(movies)| - 1
      ensures response != Redirect(HomePage) ==> movies == old(movies)
    {
      var gate := LoginRequired(currentUser);
      if gate.Some? {
        return gate.value;
      }
      var row := GetMovie(movieId);
      if row.None? {
        return NotFound;
      }
      if !currentUser.value.isAdmin {
        return Forbidden;
      }
      movies := movies - {movieId};
      response := Redirect(HomePage);
    }
  }
}
