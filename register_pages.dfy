/** The sign-up page: its redirect for a signed-in visitor, the ordered password checks and
    the submission through the auth context. */
module RegisterPage {

  import opened Wrappers
  import UseApi
  import AuthContext
  import J = Json

  const MismatchMessage := "Passwords do not match"
  const ShortPasswordMessage := "Password must be at least 6 characters"
  const RegistrationFailedMessage := "Registration failed"
  const MinPasswordLength: nat := 6

  /** A signed-in visitor is sent on to the dashboard, replacing the history entry. */
  function Redirect(authenticated: bool): (r: Option<string>)
    ensures r.Some? <==> authenticated
    ensures r.Some? ==> r.value == "/dashboard"
  {
    if authenticated then Some("/dashboard") else None
  }

  /** The checks before any request, in their order: the confirmation first, then the
      length. */
  function PasswordCheck(password: string, confirm: string): (r: Option<string>)
    ensures r.None? <==> password == confirm && |password| >= MinPasswordLength
    ensures password != confirm ==> r == Some(MismatchMessage)
    ensures password == confirm && |password| < MinPasswordLength ==> r == Some(ShortPasswordMessage)
  {
    if password != confirm then Some(MismatchMessage)
    else if |password| < MinPasswordLength then Some(ShortPasswordMessage)
    else None
  }

  /** A short password that is also mistyped is reported as mistyped. */
  lemma MismatchReportedFirst(password: string, confirm: string)
    requires password != confirm && |password| < MinPasswordLength
    ensures PasswordCheck(password, confirm) == Some(MismatchMessage)
  {
  }

  class RegisterForm {
    var error: string
    var loading: bool
    var navigatedTo: Option<string>

    constructor ()
      ensures error == "" && !loading && navigatedTo == None
    {
      error := "";
      loading := false;
      navigatedTo := None;
    }

    /** `handleSubmit`: a failed check shows its message and calls nothing; otherwise the
        context's `register` runs, success goes to the dashboard and a rejection shows the
        envelope's message or the fallback. Loading is off afterwards. */
    method Submit(auth: AuthContext.AuthProvider, email: string, password: string, confirm: string, name: string,
                  reply: AuthContext.SessionReply)
      returns (sent: Option<UseApi.Request>)
      requires auth.Valid() && !loading
      modifies this, auth
      ensures auth.Valid() && !loading
      ensures PasswordCheck(password, confirm).Some? ==>
                && sent == None && error == PasswordCheck(password, confirm).value
                && navigatedTo == old(navigatedTo) && unchanged(auth)
      ensures PasswordCheck(password, confirm).None? ==> sent.Some? && sent.value.url == "/auth/register"
      ensures PasswordCheck(password, confirm).None? && reply.Session? ==>
                && error == "" && navigatedTo == Some("/dashboard")
                && auth.user == reply.user && auth.token == auth.storedToken == Some(reply.token)
                && auth.loading == old(auth.loading)
      ensures PasswordCheck(password, confirm).None? && reply.Rejected? ==>
                && error == UseApi.EnvelopeOr(reply.failure, RegistrationFailedMessage)
                && navigatedTo == old(navigatedTo)
                && auth.user == old(auth.user) && auth.token == old(auth.token)
                && auth.loading == old(auth.loading)
    {
      error := "";
      var problem := PasswordCheck(password, confirm);
      if problem.Some? {
        error := problem.value;
        sent := None;
        return;
      }
      loading := true;
      var request, user := auth.Register(email, password, name, reply);
      sent := Some(request);
      if user.Some? {
        navigatedTo := Some("/dashboard");
      } else {
        error := UseApi.EnvelopeOr(reply.failure, RegistrationFailedMessage);
      }
      loading := false;
    }
  }
}

/** The administrator sign-up page. It is the sign-up page with `registerAdmin` in place of
    `register`; the auth context offers no such member, so the call throws before any
    request is made. */
module AdminRegisterPage {

  import opened Wrappers
  import UseApi
  import AuthContext
  import RegisterPage

  const AdminRegistrationFailedMessage := "Admin registration failed"

  /** The failure of calling a member the context does not have: a client-side error with no
      response behind it. */
  const MissingMemberFailure := UseApi.Failure(None, "registerAdmin is not a function")

  class AdminRegisterForm {
    var error: string
    var loading: bool
    var navigatedTo: Option<string>

    constructor ()
      ensures error == "" && !loading && navigatedTo == None
    {
      error := "";
      loading := false;
      navigatedTo := None;
    }

    /** `handleSubmit`: the same ordered checks; past them, the missing `registerAdmin`
        throws, which always reads as the page's fallback. No request is sent and the page
        never moves on. */
    method Submit(password: string, confirm: string) returns (attempted: bool)
      requires !loading
      modifies this
      ensures !loading && navigatedTo == old(navigatedTo)
      ensures attempted <==> RegisterPage.PasswordCheck(password, confirm).None?
      ensures !attempted ==> error == RegisterPage.PasswordCheck(password, confirm).value
      ensures attempted ==> error == AdminRegistrationFailedMessage
    {
      error := "";
      var problem := RegisterPage.PasswordCheck(password, confirm);
      if problem.Some? {
        error := problem.value;
        return false;
      }
      attempted := true;
      loading := true;
      assert "registerAdmin" !in AuthContext.ContextMembers;
      error := UseApi.EnvelopeOr(MissingMemberFailure, AdminRegistrationFailedMessage);
      loading := false;
    }
  }
}
