/**
 * The sign-in page of the backend-style frontend (frontend/src/pages/Login.tsx):
 * the rotating opener line, the register/login toggle, and the submit
 * handler that validates the fields and dispatches to the mock
 * authentication hook. The awaited call is taken to finish before the
 * handler returns.
 */
module LoginPage {
  import opened Text
  import opened MockAuth

  const FUNNY_OPENERS: seq<string> := [
    "Welcome to UnderLiv — where passwords fear the spin cycle.",
    "Log in like a legend. Elastic optional.",
    "No socks were lost during this authentication.",
    "Your data is stored in... a very fancy drawer (Django).",
    "Enter the Hall. Mind the tumble dryer."]

  /** `funnyOpeners[idx % funnyOpeners.length]`. */
  function Opener(idx: nat): (s: string)
    ensures s in FUNNY_OPENERS
  {
    FUNNY_OPENERS[idx % |FUNNY_OPENERS|]
  }

  /** The opener cycles with period five and changes at every tick. */
  lemma OpenerCycles(idx: nat)
    ensures Opener(idx + 5) == Opener(idx)
    ensures Opener(idx + 1) != Opener(idx)
  {
    var k := idx % 5;
    assert (idx + 5) % 5 == k;
    assert (idx + 1) % 5 == (k + 1) % 5;
  }

  /** What `onSubmit` does with the current fields. */
  datatype Decision = Ignored | MissingFields | MissingEmail | CallRegister | CallLogin

  /** The guards of `onSubmit`, in the order it checks them. */
  function SubmitDecision(isSubmitting: bool, isRegistering: bool, username: string, email: string, password: string): Decision {
    if isSubmitting then Ignored
    else if Trim(username) == [] || Trim(password) == [] then MissingFields
    else if isRegistering && Trim(email) == [] then MissingEmail
    else if isRegistering then CallRegister
    else CallLogin
  }

  /**
   * A submit already in progress is ignored; a blank username or password is
   * an error; in register mode a blank email is an error; otherwise register
   * or login is called.
   */
  lemma SubmitDecisionGuards(isSubmitting: bool, isRegistering: bool, username: string, email: string, password: string)
    ensures var d := SubmitDecision(isSubmitting, isRegistering, username, email, password);
      && (d == Ignored <==> isSubmitting)
      && (d == MissingFields <==> !isSubmitting && (IsBlank(username) || IsBlank(password)))
      && (d == MissingEmail <==>
           !isSubmitting && !IsBlank(username) && !IsBlank(password) && isRegistering && IsBlank(email))
      && (d == CallRegister <==>
           !isSubmitting && !IsBlank(username) && !IsBlank(password) && isRegistering && !IsBlank(email))
      && (d == CallLogin <==> !isSubmitting && !IsBlank(username) && !IsBlank(password) && !isRegistering)
  {
    TrimEmptyIffBlank(username);
    TrimEmptyIffBlank(password);
    TrimEmptyIffBlank(email);
  }

  /** The page's form fields and flags. */
  class Page {
    var username: string
    var email: string
    var password: string
    var isRegistering: bool
    var isSubmitting: bool
    var idx: nat

    constructor ()
      ensures username == [] && email == [] && password == []
      ensures !isRegistering && !isSubmitting && idx == 0
    {
      username, email, password := [], [], [];
      isRegistering, isSubmitting, idx := false, false, 0;
    }

    /** The three-second interval: the opener index moves on by one. */
    method Tick()
      modifies this
      ensures idx == old(idx) + 1 && Opener(idx) != Opener(old(idx))
      ensures username == old(username) && email == old(email) && password == old(password)
      ensures isRegistering == old(isRegistering) && isSubmitting == old(isSubmitting)
    {
      OpenerCycles(idx);
      idx := idx + 1;
    }

    /** The mode button flips between registering and logging in. */
    method ToggleMode()
      modifies this
      ensures isRegistering == !old(isRegistering)
      ensures username == old(username) && email == old(email) && password == old(password)
      ensures isSubmitting == old(isSubmitting) && idx == old(idx)
    {
      isRegistering := !isRegistering;
    }

    /**
     * `onSubmit`: a refused submit leaves the authentication state alone; an
     * accepted one calls register or login, navigates home exactly when that
     * call succeeds, and always ends with `isSubmitting` cleared. `newId` is
     * the clock-based id a registration would give the new user.
     */
    method OnSubmit(auth: Auth, newId: string) returns (d: Decision, navigated: bool)
      requires auth.Valid()
      modifies this, auth
      ensures auth.Valid()
      ensures d == SubmitDecision(old(isSubmitting), isRegistering, username, email, password)
      ensures username == old(username) && email == old(email) && password == old(password)
      ensures isRegistering == old(isRegistering) && idx == old(idx)
      ensures d != Ignored ==> !isSubmitting
      ensures d == Ignored ==> isSubmitting
      ensures d == Ignored || d == MissingFields || d == MissingEmail ==> !navigated && unchanged(auth)
      ensures d == CallLogin ==> (navigated <==> Accepts(old(auth.users), old(auth.passwords), username, password))
      ensures d == CallRegister ==>
        (navigated <==> FindByUsername(old(auth.users), username).None? && !EmailTakenIn(old(auth.users), email))
      ensures d == CallRegister && navigated ==> Accepts(auth.users, auth.passwords, username, password)
    {
      d := SubmitDecision(isSubmitting, isRegistering, username, email, password);
      navigated := false;
      if d == Ignored || d == MissingFields || d == MissingEmail {
        return;
      }
      isSubmitting := true;
      navigated := Call(auth, d == CallRegister, username, email, password, newId);
      isSubmitting := false;
    }
  }

  /** `isRegistering ? await register(...) : await login(...)`: whether the call succeeded. */
  method Call(auth: Auth, registering: bool, username: string, email: string, password: string, newId: string)
    returns (success: bool)
    requires auth.Valid()
    modifies auth
    ensures auth.Valid()
    ensures !registering ==> (success <==> Accepts(old(auth.users), old(auth.passwords), username, password))
    ensures registering ==>
      (success <==> FindByUsername(old(auth.users), username).None? && !EmailTakenIn(old(auth.users), email))
    ensures registering && success ==> Accepts(auth.users, auth.passwords, username, password)
  {
    if registering {
      var outcome := auth.Register(username, email, password, newId);
      success := outcome == Registered;
    } else {
      success := auth.Login(username, password);
    }
  }
}
