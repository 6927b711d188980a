/**
 * The sign-in / sign-up form of Login.tsx: its state, the mode toggle, and
 * the submit handler with its checks in the order the form makes them.
 *
 * A submission either leaves an error message in the form, or signs in the
 * given email (what the form hands to the app's `handleLogin`).
 */
module Login {
  import opened Wrappers
  import opened Types
  import opened Accounts
  import App

  datatype Mode = SignIn | SignUp

  datatype Form = Form(mode: Mode, email: string, password: string, confirmPassword: string, error: string)

  const INVALID_EMAIL := "Please enter a valid email address."
  const SHORT_PASSWORD := "Password must be at least 6 characters long."
  const PASSWORD_MISMATCH := "Passwords do not match."
  const ACCOUNT_EXISTS := "An account with this email already exists."
  const INVALID_CREDENTIALS := "Invalid email or password."
  const MIN_PASSWORD_LENGTH := 6

  /** What a submission leaves behind: the form, the account store, and the email signed in, if any. */
  datatype Submission = Submission(form: Form, store: Store, login: Option<string>)

  /** An email is accepted when it is non-empty and contains an `@`. */
  predicate ValidEmail(email: string) {
    |email| > 0 && '@' in email
  }

  /** The non-empty test adds nothing to the `@` test. */
  lemma ValidEmailIsAt(email: string)
    ensures ValidEmail(email) <==> '@' in email
  {
  }

  /** `toggleMode`: the other mode, and every field cleared. */
  function ToggleMode(f: Form): (g: Form)
    ensures g.mode != f.mode
    ensures g.email == "" && g.password == "" && g.confirmPassword == "" && g.error == ""
  {
    Form(if f.mode == SignIn then SignUp else SignIn, "", "", "", "")
  }

  /** Toggling twice returns to the original mode with an empty form. */
  lemma ToggleTwice(f: Form)
    ensures ToggleMode(ToggleMode(f)) == Form(f.mode, "", "", "", "")
  {
  }

  /** The account a sign-up creates: level 1, no points, no $MARCZ, no best time, no profile. */
  function NewAccount(email: string, password: string): (u: User)
    ensures u.email == email && u.password == password
    ensures u.stats.level == 1 && u.stats.totalPoints == 0 && u.stats.marczBalance == 0.0
    ensures u.stats.fastestTime.None? && u.username.None? && u.avatar.None?
  {
    User(email, password, PlayerStats(1, 0, 0.0, None), None, None)
  }

  /** `handleSubmit`: the error is cleared, then the checks run in order and the first failure stops. */
  function HandleSubmit(f: Form, store: Store): (s: Submission)
    ensures s.form.mode == f.mode && s.form.email == f.email
    ensures s.form.password == f.password && s.form.confirmPassword == f.confirmPassword
    ensures s.login.Some? <==> s.form.error == ""
    ensures s.login.Some? ==> s.login.value == f.email
  {
    var cleared := f.(error := "");
    if !ValidEmail(f.email) then
      Submission(cleared.(error := INVALID_EMAIL), store, None)
    else if |f.password| < MIN_PASSWORD_LENGTH then
      Submission(cleared.(error := SHORT_PASSWORD), store, None)
    else if f.mode == SignUp then
      if f.password != f.confirmPassword then
        Submission(cleared.(error := PASSWORD_MISMATCH), store, None)
      else if f.email in store then
        Submission(cleared.(error := ACCOUNT_EXISTS), store, None)
      else
        Submission(cleared, SaveUser(store, NewAccount(f.email, f.password)), Some(f.email))
    else
      if f.email !in store || store[f.email].password != f.password then
        Submission(cleared.(error := INVALID_CREDENTIALS), store, None)
      else
        Submission(cleared, store, Some(f.email))
  }

  /** Which message a submission shows, as a function of the first check that fails. */
  lemma SubmitErrors(f: Form, store: Store)
    ensures var e := HandleSubmit(f, store).form.error;
      (e == INVALID_EMAIL <==> !ValidEmail(f.email))
      && (e == SHORT_PASSWORD <==> ValidEmail(f.email) && |f.password| < MIN_PASSWORD_LENGTH)
      && (e == PASSWORD_MISMATCH <==>
            ValidEmail(f.email) && |f.password| >= MIN_PASSWORD_LENGTH
            && f.mode == SignUp && f.password != f.confirmPassword)
      && (e == ACCOUNT_EXISTS <==>
            ValidEmail(f.email) && |f.password| >= MIN_PASSWORD_LENGTH
            && f.mode == SignUp && f.password == f.confirmPassword && f.email in store)
      && (e == INVALID_CREDENTIALS <==>
            ValidEmail(f.email) && |f.password| >= MIN_PASSWORD_LENGTH
            && f.mode == SignIn && (f.email !in store || store[f.email].password != f.password))
  {
  }

  /** Signing in succeeds exactly for a valid email whose stored account has this password. */
  lemma SignInIff(f: Form, store: Store)
    requires f.mode == SignIn
    ensures HandleSubmit(f, store).login.Some? <==>
      ValidEmail(f.email) && |f.password| >= MIN_PASSWORD_LENGTH
      && f.email in store && store[f.email].password == f.password
    ensures HandleSubmit(f, store).store == store
  {
  }

  /** Signing up succeeds exactly for a valid, unused email with a long enough, confirmed password. */
  lemma SignUpIff(f: Form, store: Store)
    requires f.mode == SignUp
    ensures HandleSubmit(f, store).login.Some? <==>
      ValidEmail(f.email) && |f.password| >= MIN_PASSWORD_LENGTH
      && f.password == f.confirmPassword && f.email !in store
  {
  }

  /**
   * The store changes only by a successful sign-up, and then only by the new
   * account: no stored account is ever overwritten or removed.
   */
  lemma SubmitStoreFrame(f: Form, store: Store)
    ensures var s := HandleSubmit(f, store);
      s.store == store
      || (f.mode == SignUp && s.login.Some? && f.email !in store
          && s.store == SaveUser(store, NewAccount(f.email, f.password)))
    ensures var s := HandleSubmit(f, store);
      forall k :: k in store ==> k in s.store && s.store[k] == store[k]
  {
  }

  /** Every submission keeps each account under its own email. */
  lemma SubmitKeepsKeyed(f: Form, store: Store)
    requires Keyed(store)
    ensures Keyed(HandleSubmit(f, store).store)
  {
  }

  /** An account created by signing up can sign in with the same email and password. */
  lemma SignUpThenSignIn(f: Form, store: Store)
    requires f.mode == SignUp
    requires HandleSubmit(f, store).login.Some?
    ensures var s := HandleSubmit(f, store);
      HandleSubmit(Form(SignIn, f.email, f.password, "", ""), s.store).login == Some(f.email)
  {
  }

  /**
   * Handing the signed-in email to the app signs in an account with the
   * typed email and password; a sign-up signs in a fresh account.
   */
  lemma SubmitThenHandleLogin(f: Form, store: Store, current: Option<User>)
    requires Keyed(store)
    requires HandleSubmit(f, store).login.Some?
    ensures var s := HandleSubmit(f, store);
      var u := App.HandleLogin(current, s.store, s.login.value);
      u.Some? && u.value.email == f.email && u.value.password == f.password
    ensures var s := HandleSubmit(f, store);
      f.mode == SignUp ==> App.HandleLogin(current, s.store, s.login.value) == Some(NewAccount(f.email, f.password))
  {
  }
}
