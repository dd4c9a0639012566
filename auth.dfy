/** The input checks and the admin rule of the authentication blueprint:
    `_validate_registration` and the three validators it combines, the
    e-mail pattern, `_is_admin`, and the `login_required` gate. */
module Auth {
  import opened Types

  const UsernameRequired := "Username is required"
  const EmailRequired := "Email is required"
  const InvalidEmail := "Invalid email"
  const PasswordRequired := "Password is required"
  const PasswordTooShort := "Password must be longer than 8 characters"
  const InvalidCredentials := "Invalid username or password."

  /** Shortest password `_validate_password` accepts. */
  const MinPasswordLength := 8

  /** E-mail suffix of the trusted domain whose users become administrators. */
  const AdminSuffix := "@imdb.com"

  /** The notice shown when the store refuses a second row with the same username. */
  function DuplicateUser(username: string): string
  {
    "User " + username + " is already registered."
  }

  /** Python's `a or b` on values that are None or a string: None and the
      empty string are falsy, so `b` is taken for both. */
  function Or(a: Option<string>, b: Option<string>): Option<string>
  {
    if a.Some? && a.value != "" then a else b
  }

  /** `_validate_username`: only a missing username is an error; the empty string passes. */
  function ValidateUsername(username: Option<string>): (r: Option<string>)
    ensures r.Some? <==> username.None?
    ensures r.Some? ==> r.value == UsernameRequired
  {
    if username.None? then Some(UsernameRequired) else None
  }

  /** Position of the first `c` in `s`, or `|s|` when there is none. */
  function IndexOf(s: string, c: char): (r: nat)
    ensures r <= |s|
    ensures r < |s| ==> s[r] == c
    ensures c !in s[..r]
  {
    if s == [] then 0
    else if s[0] == c then 0
    else
      var r := 1 + IndexOf(s[1..], c);
      assert s[..r] == [s[0]] + s[1..][..r - 1];
      r
  }

  /** The hand-written reading of the pattern `[^@]+@[^@]+\.[^@]+`: exactly one
      `@`, something before it, and after it a domain holding a `.` that is
      neither its first nor its last character. */
  predicate WellFormedEmail(s: string)
  {
    var at := IndexOf(s, '@');
    0 < at < |s| &&
    '@' !in s[at + 1..] &&
    var domain := s[at + 1..];
    |domain| >= 3 && '.' in domain[1..|domain| - 1]
  }

  /** No `@` in `s` except, possibly, at position `at`. */
  ghost predicate OnlyAtSignAt(s: string, at: int)
  {
    forall k :: 0 <= k < |s| && k != at ==> s[k] != '@'
  }

  /** What `re.fullmatch(r"[^@]+@[^@]+\.[^@]+", s)` accepts, read off the
      pattern: a split `s = A + "@" + B + "." + C` with A, B and C non-empty
      and free of `@`. The `@` sits at `at` and the `.` at `dot`. */
  ghost predicate MatchesEmailPattern(s: string)
  {
    exists at, dot :: 0 < at && at + 1 < dot && dot + 1 < |s| &&
      s[at] == '@' && s[dot] == '.' && OnlyAtSignAt(s, at)
  }

  /** The hand-written check accepts exactly what the pattern accepts. */
  lemma {:induction false} WellFormedEmailIffPattern(s: string)
    ensures WellFormedEmail(s) <==> MatchesEmailPattern(s)
  {
    var at := IndexOf(s, '@');
    if WellFormedEmail(s) {
      var domain := s[at + 1..];
      var inner := domain[1..|domain| - 1];
      var j :| 0 <= j < |inner| && inner[j] == '.';
      var dot := at + 2 + j;
      assert s[dot] == inner[j];
      forall k | 0 <= k < |s| && k != at
        ensures s[k] != '@'
      {
        if k < at {
          assert s[k] == s[..at][k];
        } else {
          assert s[k] == s[at + 1..][k - at - 1];
        }
      }
      assert MatchesEmailPattern(s);
    }
    if MatchesEmailPattern(s) {
      var a, dot :| 0 < a && a + 1 < dot && dot + 1 < |s| &&
        s[a] == '@' && s[dot] == '.' && OnlyAtSignAt(s, a);
      assert forall i :: 0 <= i < at ==> s[..at][i] == s[i];
      assert at == a;
      var domain := s[at + 1..];
      assert domain[1..|domain| - 1][dot - at - 2] == '.';
      forall k | 0 <= k < |domain|
        ensures domain[k] != '@'
      {
        assert domain[k] == s[at + 1 + k];
      }
      assert WellFormedEmail(s);
    }
  }

  /** `_validate_email`. */
  function ValidateEmail(email: Option<string>): (r: Option<string>)
    ensures email.None? ==> r == Some(EmailRequired)
    ensures email.Some? ==> (r.None? <==> MatchesEmailPattern(email.value))
    ensures email.Some? && r.Some? ==> r.value == InvalidEmail
  {
    match email
    case None => Some(EmailRequired)
    case Some(s) =>
      WellFormedEmailIffPattern(s);
      if WellFormedEmail(s) then None else Some(InvalidEmail)
  }

  /** `_validate_password`: a password of exactly eight characters is accepted. */
  function ValidatePassword(password: Option<string>): (r: Option<string>)
    ensures password.None? ==> r == Some(PasswordRequired)
    ensures password.Some? ==> (r.None? <==> |password.value| >= MinPasswordLength)
    ensures password.Some? && r.Some? ==> r.value == PasswordTooShort
  {
    match password
    case None => Some(PasswordRequired)
    case Some(p) => if |p| < MinPasswordLength then Some(PasswordTooShort) else None
  }

  /** `_validate_registration`: all three checks run, and the `or` chain
      yields the username error if there is one, else the e-mail error, else
      the password error; messages are never merged. */
  function ValidateRegistration(username: Option<string>, email: Option<string>, password: Option<string>): (r: Option<string>)
    ensures r == (if username.None? then Some(UsernameRequired)
                  else if email.None? then Some(EmailRequired)
                  else if !MatchesEmailPattern(email.value) then Some(InvalidEmail)
                  else if password.None? then Some(PasswordRequired)
                  else if |password.value| < MinPasswordLength then Some(PasswordTooShort)
                  else None)
  {
    Or(Or(ValidateUsername(username), ValidateEmail(email)), ValidatePassword(password))
  }

  /** Through the registration form every field is present, so only the
      pattern and the length can fail, and an empty username is accepted. */
  lemma FormRegistrationErrors(username: string, email: string, password: string)
    ensures ValidateRegistration(Some(username), Some(email), Some(password)) in
      {None, Some(InvalidEmail), Some(PasswordTooShort)}
    ensures ValidateRegistration(Some(username), Some(email), Some(password)).None? <==>
      MatchesEmailPattern(email) && |password| >= MinPasswordLength
  {
  }

  /** `_is_admin`: a case-sensitive `endswith('@imdb.com')`. */
  predicate IsAdmin(email: string)
  {
    |email| >= |AdminSuffix| && email[|email| - |AdminSuffix|..] == AdminSuffix
  }

  /** An address is an administrator's exactly when it is some prefix
      followed by the trusted suffix. */
  lemma IsAdminIffSuffix(email: string)
    ensures IsAdmin(email) <==> exists local :: email == local + AdminSuffix
  {
    if IsAdmin(email) {
      var local := email[..|email| - |AdminSuffix|];
      assert email == local + AdminSuffix;
    }
  }

  /** The `login_required` wrapper: the response it answers with instead of
      running the view, if any. */
  function LoginRequired(user: Option<User>): (r: Option<Response>)
    ensures r.Some? <==> user.None?
    ensures r.Some? ==> r.value == Redirect(LoginPage)
  {
    if user.None? then Some(Redirect(LoginPage)) else None
  }

  /** The address the test suite registers with matches the pattern. */
  lemma WellFormedExample()
    ensures MatchesEmailPattern("test@imdb.com")
  {
    var valid := "test@imdb.com";
    assert valid[4] == '@' && valid[9] == '.';
    assert OnlyAtSignAt(valid, 4);
  }

  /** The e-mail cases of the test suite. */
  lemma EmailExamples()
    ensures ValidateEmail(None) == Some(EmailRequired)
    ensures ValidateEmail(Some("test@imdb.com")).None?
    ensures ValidateEmail(Some("invalid")) == Some(InvalidEmail)
  {
    WellFormedExample();
    var invalid := "invalid";
    assert forall k :: 0 <= k < |invalid| ==> invalid[k] != '@';
  }

  /** The password cases of the test suite: eight characters are enough. */
  lemma PasswordExamples()
    ensures ValidatePassword(None) == Some(PasswordRequired)
    ensures ValidatePassword(Some("12345678")).None?
    ensures ValidatePassword(Some("123")) == Some(PasswordTooShort)
  {
  }

  /** The registration cases of the test suite: each check's notice wins
      over the ones after it, and a fully valid request passes. */
  lemma RegistrationExamples()
    ensures ValidateRegistration(None, Some("test@imdb.com"), Some("12345678")) == Some(UsernameRequired)
    ensures ValidateRegistration(Some("ABC"), Some("invalid email"), Some("12345678")) == Some(InvalidEmail)
    ensures ValidateRegistration(Some("ABC"), Some("test@imdb.com"), Some("1")) == Some(PasswordTooShort)
    ensures ValidateRegistration(Some("ABC"), Some("test@imdb.com"), Some("12345678")).None?
  {
    WellFormedExample();
    var invalid := "invalid email";
    assert forall k :: 0 <= k < |invalid| ==> invalid[k] != '@';
  }

  /** Only the exact lower-case trusted suffix makes an administrator. */
  lemma AdminExamples()
    ensures IsAdmin("abc@imdb.com")
    ensures !IsAdmin("abc@email.com")
    ensures !IsAdmin("abc@IMDB.com")
  {
  }
}
