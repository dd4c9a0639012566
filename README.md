# MovieContribution: authentication and movie handlers in Dafny

MovieContribution is a small Flask application. Registered users log in and
add or edit movie entries (a title and a plot). Only administrators may delete
them, and an administrator is anyone who registered with an `@imdb.com`
address. This project models the two blueprints that hold its logic and proves
what they promise.

- `types.dfy` (module `Types`) holds the shared values: rows of the `user` and
  `movie` tables, the row of the `movie JOIN user` query, requests (a GET, or a
  POST carrying its form), and the responses a handler gives. The responses are
  redirect, rendered form with an optional error notice, rendered movie, movie
  list, 400, 404 and 403. `Digest` stands for werkzeug's salted password hash.
- `auth.dfy` (module `Auth`) holds the pure helpers of `auth.py`.
  - `_validate_registration` combines the three validators with Python's `or`.
  - `_validate_email`'s regular expression `[^@]+@[^@]+\.[^@]+` becomes a
    hand-written check, `WellFormedEmail`. It is proved to accept exactly what
    the pattern's structure (`MatchesEmailPattern`) accepts.
  - Also here: `_is_admin`, and the `login_required` gate.
- `movie.dfy` (module `Movies`) holds `_validate_movie_request`, what a joined
  row is, and the `ORDER BY created DESC` order of the movie list.
- `handlers.dfy` (module `Handlers`) is a state machine. Class `App` holds the
  session's `user_id`, `g.user`, the user table (keyed by username) and the
  movie table (keyed by `movie_id`). Each handler is a method with its guards
  in the source's order:
  1. not logged in: redirect to login;
  2. missing movie: 404;
  3. not an administrator: 403;
  4. missing form field: 400;
  5. validation error or duplicate username: the form again, with a notice and no change.

  Each method states exactly which part of the state changes and how.
  `Valid()` is the invariant the handlers keep: usernames and user ids are
  unique, every `added_by` names a user, and `g.user` is a row of the table.
  The store enforces the unique username and the unique `user_id` key; in the
  model the counters stand for its key assignment. That every `added_by` names
  a user and that `g.user` is a row hold because no handler deletes a user and
  `added_by` always comes from `g.user`. Every
  handler preserves it.
- `scenarios.dfy` (module `Scenarios`) replays request sequences from the test
  suite, using only the handlers' contracts.

Some behaviour follows the code where a reader might expect otherwise:

- `request.form["..."]` raises a 400 when a field is absent. So through the
  handlers the validators only ever see strings, and their `None` branches
  can only be reached by calling them directly. An empty username, title or
  plot is accepted. `Auth.FormRegistrationErrors` states what can still fail.
  A username is usually described as required, but the code only rejects
  `None`, and the model follows the code.
- `_validate_password` accepts a password of exactly 8 characters. The notice
  it gives for shorter ones still says "longer than 8 characters".
- `_get_movie` uses an inner join with the user table. The model keeps the
  join, and `GetMovie` shows that under `Valid()` the join loses no movie.
- Login clears the session before it stores `user_id`. The session is
  modelled as its `user_id` slot alone, so both steps together leave exactly
  `Some(id)`.

## Model

| member | source | states |
|---|---|---|
| `Types.CheckPasswordHash` | movie_contribution/auth.py:80 | `check_password_hash`: a digest accepts a candidate password exactly when it is the password the digest was made from |
| `Types.GeneratePasswordHash` | movie_contribution/auth.py:45 | the digest stored at registration keeps the supplied salt and is accepted by the check for exactly the password it was made from |
| `Auth.ValidateUsername` | movie_contribution/auth.py:139-141 | "Username is required" if and only if the username is missing; any string, the empty one included, passes |
| `Auth.WellFormedEmail` | movie_contribution/auth.py:147 | the `re.fullmatch` of the e-mail pattern: exactly one `@` with something before it, and after it a domain holding a `.` that is neither its first nor its last character |
| `Auth.WellFormedEmailIffPattern` | movie_contribution/auth.py:147 | the hand-written check (one `@`, non-empty local part, a `.` inside the domain that is neither its first nor its last character) accepts exactly the strings that split as the pattern `[^@]+@[^@]+\.[^@]+` demands |
| `Auth.ValidateEmail` | movie_contribution/auth.py:143-149 | "Email is required" for a missing address; otherwise no error if and only if the address matches the pattern, and "Invalid email" when it does not |
| `Auth.ValidatePassword` | movie_contribution/auth.py:151-156 | "Password is required" for a missing password; otherwise no error if and only if it has at least 8 characters, and the length notice otherwise |
| `Auth.ValidateRegistration` | movie_contribution/auth.py:132-137 | the username error if there is one, else the e-mail error, else the password error, else none; the `or` chain never merges messages, because each message is non-empty |
| `Auth.FormRegistrationErrors` | movie_contribution/auth.py:31-37 | with every form field present, registration can only fail on the e-mail pattern or the password length, and passes exactly when both hold |
| `Auth.IsAdmin` | movie_contribution/auth.py:158-160 | `_is_admin`: the address ends, case-sensitively, with `@imdb.com` |
| `Auth.IsAdminIffSuffix` | movie_contribution/auth.py:158-160 | an address is an administrator's if and only if it is some prefix followed by exactly `@imdb.com` |
| `Auth.AdminExamples` | movie_contribution/auth.py:158-160 | `abc@imdb.com` is an administrator's address; `abc@email.com` and the upper-case `abc@IMDB.com` are not |
| `Auth.LoginRequired` | movie_contribution/auth.py:118-128 | the gate answers with a redirect to the login page if and only if there is no current user, and otherwise lets the view run |
| `Auth.WellFormedExample` | tst/auth_test.py:153-155 | `test@imdb.com` matches the e-mail pattern |
| `Auth.EmailExamples` | tst/auth_test.py:145-155 | a missing address, `invalid` and `test@imdb.com` get the notices the tests expect |
| `Auth.RegistrationExamples` | tst/auth_test.py:128-142 | the four `_validate_registration` cases of the tests: a missing username wins over the rest, `invalid email` gets the e-mail notice, a one-character password gets the length notice, and a valid request passes |
| `Auth.PasswordExamples` | tst/auth_test.py:158-168 | the three `_validate_password` cases of the tests: a missing password is required, `123` gets the length notice, `12345678` is accepted |
| `Movies.ValidateMovieRequest` | movie_contribution/movie.py:132-137 | no error if and only if title and plot are both present; a missing title is reported even when the plot is missing too, and the plot notice otherwise |
| `Movies.JoinedRow` | movie_contribution/movie.py:120-124 | a row of `movie JOIN user ON added_by = user_id`: the movie's id, title, plot and `created`, with the username of a user row whose id is the movie's `added_by` |
| `Movies.NewestExists` | movie_contribution/movie.py:29-33 | every non-empty set of movies has one created no earlier than all the others |
| `Movies.ListNewest` | movie_contribution/movie.py:29-33 | appending the joined row of the newest remaining movie to a newest-first partial listing keeps it a newest-first partial listing with no duplicate |
| `Movies.DistinctIdsCount` | movie_contribution/movie.py:29-33 | a listing with no repeated movie id shows as many ids as it has rows |
| `Movies.ListingCoversTable` | movie_contribution/movie.py:29-33 | a listing shows exactly the ids of the movie table and is exactly as long as the table: the whole table, no pagination |
| `Handlers.App.constructor` | movie_contribution/database.py:26-33 | a freshly initialised store has empty tables, no session and no current user, and satisfies `Valid()`, the invariant the handlers keep |
| `Handlers.App.LoadLoggedInUser` | movie_contribution/auth.py:103-116 | no session means no current user; otherwise the current user is the row with the session's id, or none when no row has that id any more |
| `Handlers.App.Register` | movie_contribution/auth.py:23-56 | GET renders the form; a missing field is a 400; a validation error or a taken username re-renders the form with that notice and leaves the table unchanged; otherwise exactly one row is added, under a fresh id, with the hashed password and the admin flag from `_is_admin`, and the response redirects to login |
| `Handlers.App.Login` | movie_contribution/auth.py:58-92 | an unknown username and a wrong password give the same notice and leave the session unchanged; a match sets the session to that user's id and redirects home; no other state changes |
| `Handlers.App.Logout` | movie_contribution/auth.py:94-101 | the session is empty afterwards whatever it held before, and the response redirects home |
| `Handlers.App.GetMovie` | movie_contribution/movie.py:119-130 | a row comes back if and only if the movie exists, and it is that movie's joined row with its adder's username |
| `Handlers.App.Index` | movie_contribution/movie.py:20-34 | anonymous requests are redirected to login; otherwise the list holds one joined row for every movie and no other, newest first |
| `Handlers.App.Add` | movie_contribution/movie.py:36-63 | anonymous requests are redirected to login; GET renders the form; a missing field is a 400; on success exactly one movie is added, under a fresh id, with the given title and plot, the supplied creation time, and `added_by` set to the current user's id; any other outcome leaves the table unchanged |
| `Handlers.App.Update` | movie_contribution/movie.py:66-95 | anonymous requests are redirected to login; a missing movie is a 404 before the method or the form is looked at; GET renders the joined row; on success only that movie's title and plot change, and its `created`, its `added_by` and every other movie stay as they were |
| `Handlers.App.Delete` | movie_contribution/movie.py:97-115 | anonymous requests are redirected to login; existence is checked before the admin flag (404, then 403), and both leave the table unchanged; an administrator removes exactly that movie, so the count drops by one |
| `Scenarios.OrdinaryRegistrationForm` | tst/auth_test.py:56-61 | the test's registration form `abc` / `abc@email.com` / `abcdefgh` passes validation, and its address is not an administrator's |
| `Scenarios.RegisterNew` | movie_contribution/auth.py:37-54 | a POST whose fields pass validation and whose username is new redirects to the login page and adds exactly that row, with the address, the admin flag `_is_admin` gives and a digest accepting the password; every earlier row is kept; movies, session and current user are unchanged |
| `Scenarios.SignUp` | tst/auth_test.py:56-74 | registering that form with a new username redirects to the login page and writes the row: not an administrator's, with that address, accepting its password; only that row is added; movies, session and current user are unchanged |
| `Scenarios.AdminRegistrationForm` | movie_contribution/auth.py:158-160 | a form with the address `test@imdb.com` passes validation, and the address is an administrator's |
| `Scenarios.SignUpAdmin` | movie_contribution/auth.py:42-54 | registering with an address on the trusted domain redirects to the login page and writes a row flagged as an administrator's; only that row is added, and earlier rows are kept |
| `Scenarios.LogIn` | tst/auth_test.py:103-111 | logging in with the right password puts the account's `user_id` in the session, and resolving the next request's user makes that row the current user; the tables are unchanged |
| `Scenarios.FailedLogins` | tst/auth_test.py:77-101 | a wrong password and an unknown username get the same notice, neither signs anyone in, and the tables and current user are unchanged |
| `Scenarios.AddMovie` | tst/movie_test.py:21-40 | a logged-in user's add redirects to the movie list and stores exactly one new movie with the posted title and plot, owned by that user |
| `Scenarios.UpdateMovie` | tst/movie_test.py:43-61 | a logged-in user's update of movie 1 redirects to the movie list and sets its title and plot; its `created` and owner and every other movie stay as they were |
| `Scenarios.DeleteNotAdmin` | tst/movie_test.py:64-74 | a user who is not an administrator gets a 403, and the one movie stays |
| `Scenarios.DeleteMovie` | tst/movie_test.py:76-90 | an administrator's delete of the one movie redirects to the movie list and empties the table; deleting it again is a 404 |
| `Scenarios.AddThenDelete` | movie_contribution/movie.py:36-115 | an administrator's add and delete of the new movie both succeed, and the table ends exactly as it began |
| `Scenarios.Anonymous` | tst/movie_test.py:7-14 | without a current user, index, add, update and delete all redirect to login, and the tables and session are unchanged |

## Left out

- Flask's request and response machinery is not modelled. That covers
  templates, `url_for`, HTTP status pages, and the 405 for a GET on delete.
  Responses are the `Response` datatype.
- Flash messages go into the rendered response only when they are the error
  notice. The informational notices ("Sign up successful, please log in",
  "Login successful") are not modelled.
- Types.GeneratePasswordHash: werkzeug's hashing algorithm and its
  one-wayness are not modelled, because it is a foreign library. The digest
  records the password it accepts. The random salt is a parameter.
- The session is modelled as its `user_id` slot alone. Other keys that
  `session.clear()` also removes, such as pending flashes, are not modelled.
- Of `movie_contribution/database.py`, only the empty store that `init_db`
  leaves is modelled (the `App` constructor). Connection handling, the schema
  script itself and commits are not modelled. The tables are maps.
- Keys come from counters that are never reused. This stands for the
  store's key assignment, because the schema file is not part of this model.
- Handlers.App.Register: the store's `IntegrityError` is modelled only for a
  duplicate username. Other constraints the schema may declare, such as a
  unique e-mail, are not modelled, because the schema file is not part of
  this model.
- `movie_contribution/__init__.py` and `movie_contribution/error.py` are not
  modelled: configuration, `/health` and the 404 page. The shipped
  `create_app` registers neither blueprint and no `index` endpoint. It does
  not call `database.init_app`, so the connection teardown is not installed,
  and nothing registers `page_not_found_error`. As shipped, no `/auth/...` or
  movie route is served. The model assumes the wiring the test suite
  presupposes: the authentication blueprint under `/auth`, the movie
  blueprint at the root, and `/` as the endpoint `index`.
- The `created` timestamp is supplied by the caller of `Add`. The clock is
  not modelled.
- Concurrent requests are not modelled. Each handler is one sequential step.
- The authentication blueprint declares `load_logged_in_user` as a hook to
  run before every request; the model does not enforce that order. Callers are expected to call `LoadLoggedInUser` first,
  and the handler contracts hold for any `g.user` that is a row of the user
  table.
- The endpoint `index` that `login` and `logout` redirect to, through
  `url_for("index")`, is taken to be `/`, the movie list (`HomePage`). No
  shipped code binds that endpoint, so as shipped `url_for("index")` would
  raise a `BuildError` instead of redirecting.
- The text of the 404 in `_get_movie` is not modelled, only the status. That
  text interpolates Python's builtin `id` instead of the movie id.
- Handlers.App.Index: the loop stands for the store's `ORDER BY created
  DESC`. As in the store, movies with equal `created` may come in any order.
