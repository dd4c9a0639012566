/** Values shared by the authentication and movie handlers: optional values,
    the stored rows of the two tables, the credential digest that stands for
    werkzeug's salted hash, and the responses a handler can produce. */
module Types {

  datatype Option<+T> = None | Some(value: T)

  /** What a salted password hash determines: the salt it was made with and
      the one password it accepts. The hashing algorithm itself is not part of
      this model; only the agreement between hashing and checking is. */
  datatype Digest = Digest(salt: nat, secret: string)

  /** generate_password_hash(password), with the random salt supplied by the caller. */
  function GeneratePasswordHash(password: string, salt: nat): (d: Digest)
    ensures d.salt == salt
    ensures forall candidate :: CheckPasswordHash(d, candidate) <==> candidate == password
  {
    Digest(salt, password)
  }

  /** check_password_hash(digest, candidate). */
  predicate CheckPasswordHash(d: Digest, candidate: string)
  {
    candidate == d.secret
  }

  /** Proof helper, not a property of the application: a non-empty set of
      ids has an element to pick. */
  lemma HasMember(s: set<int>)
    requires s != {}
    ensures exists x :: x in s
  {
    if forall x :: x !in s {
      assert false;
    }
  }

  /** A row of the `user` table. */
  datatype User = User(id: int, username: string, email: string, password: Digest, isAdmin: bool)

  /** Some row of the user table, keyed by username, has this `user_id`. */
  ghost predicate HasUserId(users: map<string, User>, id: int)
  {
    exists name :: name in users && users[name].id == id
  }

  /** A row of the `movie` table, without its key. */
  datatype Movie = Movie(title: string, plot: string, created: nat, addedBy: int)

  /** A row of the query `movie JOIN user ON added_by = user_id`. */
  datatype MovieRow = MovieRow(movieId: int, title: string, plot: string, created: nat, username: string)

  /** The submitted form of a POST request; GET requests carry none. */
  type Form = map<string, string>

  datatype Request = Get | Post(form: Form)

  datatype Template = RegisterTemplate | LoginTemplate | AddTemplate | UpdateTemplate

  /** Where a redirect goes: the login page, or the home page ("/", the movie list). */
  datatype Endpoint = LoginPage | HomePage

  /** What a handler answers with, in place of Flask's HTTP responses. */
  datatype Response =
    | Redirect(target: Endpoint)
    | Render(template: Template, error: Option<string>)
    | RenderMovie(movie: MovieRow)
    | RenderIndex(movies: seq<MovieRow>)
    | BadRequest
    | NotFound
    | Forbidden
}
