/** The front end's session state (`AuthProvider`), the guard in front of signed-in pages,
    and the dashboard chosen by role. The browser's `localStorage` slot 'token' is the field
    `storedToken`; server answers are parameters. */
module AuthContext {

  import opened Wrappers
  import UseApi
  import J = Json

  /** What `/auth/login` and `/auth/register` give back: the session's user dict and token,
      or a rejected request. */
  datatype SessionReply = Session(user: J.Value, token: string) | Rejected(failure: UseApi.Failure)

  /** What `/auth/profile` gives back: the user dict, or a rejected request. */
  datatype ProfileReply = Profile(user: J.Value) | ProfileFailed

  /** The names the context offers its consumers. */
  const ContextMembers: set<string> :=
    {"user", "token", "loading", "login", "register", "logout", "isAuthenticated"}

  class AuthProvider {
    var user: J.Value
    var token: Option<string>
    var storedToken: Option<string>
    var loading: bool

    /** The state token and the stored token never drift apart. */
    ghost predicate Valid()
      reads this
    {
      token == storedToken
    }

    /** `isAuthenticated: !!user`, with JavaScript's truthiness. */
    predicate IsAuthenticated()
      reads this
    {
      J.JsTruthy(user)
    }

    /** First render: the token is read from storage, there is no user yet and the provider
        is loading. */
    constructor (stored: Option<string>)
      ensures Valid()
      ensures user == J.Null && token == stored && storedToken == stored && loading
      ensures !IsAuthenticated()
    {
      user := J.Null;
      token := stored;
      storedToken := stored;
      loading := true;
    }

    /** The mount effect: with a token the profile is fetched, without one loading simply
        ends. `fetched` tells whether a request went out. */
    method Mount(reply: ProfileReply) returns (fetched: bool)
      requires Valid()
      modifies this
      ensures Valid() && !loading
      ensures fetched <==> Truthy(old(token))
      ensures !fetched ==> user == old(user) && token == old(token)
      ensures fetched && reply.Profile? ==> user == reply.user && token == old(token)
      ensures fetched && reply.ProfileFailed? ==> user == J.Null && token == None && storedToken == None
    {
      fetched := Truthy(token);
      if fetched {
        FetchProfile(reply);
      } else {
        loading := false;
      }
    }

    /** `fetchProfile`: a failure drops the stored token, the token and the user together;
        loading ends whatever the outcome. */
    method FetchProfile(reply: ProfileReply)
      requires Valid()
      modifies this
      ensures Valid() && !loading
      ensures reply.Profile? ==> user == reply.user && token == old(token)
      ensures reply.ProfileFailed? ==> user == J.Null && token == None && storedToken == None
      ensures reply.ProfileFailed? ==> !IsAuthenticated()
    {
      loading := false;
      match reply
      case Profile(u) =>
        user := u;
      case ProfileFailed =>
        storedToken := None;
        token := None;
        user := J.Null;
    }

    /** What `login` and `register` do with the server's answer: on success the token is
        stored and set and the user set, and the user dict is returned; a rejection changes
        nothing and is passed on (`None`). */
    method StartSession(reply: SessionReply) returns (r: Option<J.Value>)
      requires Valid()
      modifies this
      ensures Valid() && loading == old(loading)
      ensures reply.Rejected? ==> r == None && user == old(user) && token == old(token) && storedToken == old(storedToken)
      ensures reply.Session? ==> r == Some(reply.user) && user == reply.user
      ensures reply.Session? ==> storedToken == token == Some(reply.token)
    {
      match reply
      case Rejected(_) =>
        r := None;
      case Session(u, t) =>
        storedToken := Some(t);
        token := Some(t);
        user := u;
        r := Some(u);
    }

    /** `login(email, password)`. */
    method Login(email: string, password: string, reply: SessionReply) returns (sent: UseApi.Request, r: Option<J.Value>)
      requires Valid()
      modifies this
      ensures sent == UseApi.Request("POST", "/auth/login", J.Obj(map["email" := J.Str(email), "password" := J.Str(password)]))
      ensures Valid() && loading == old(loading)
      ensures reply.Rejected? ==> r == None && user == old(user) && token == old(token)
      ensures reply.Session? ==> r == Some(reply.user) && user == reply.user && storedToken == token == Some(reply.token)
    {
      sent := UseApi.Request("POST", "/auth/login", J.Obj(map["email" := J.Str(email), "password" := J.Str(password)]));
      r := StartSession(reply);
    }

    /** `register(email, password, name)`. */
    method Register(email: string, password: string, name: string, reply: SessionReply)
      returns (sent: UseApi.Request, r: Option<J.Value>)
      requires Valid()
      modifies this
      ensures sent == UseApi.Request("POST", "/auth/register",
                        J.Obj(map["email" := J.Str(email), "password" := J.Str(password), "name" := J.Str(name)]))
      ensures Valid() && loading == old(loading)
      ensures reply.Rejected? ==> r == None && user == old(user) && token == old(token)
      ensures reply.Session? ==> r == Some(reply.user) && user == reply.user && storedToken == token == Some(reply.token)
    {
      sent := UseApi.Request("POST", "/auth/register",
                J.Obj(map["email" := J.Str(email), "password" := J.Str(password), "name" := J.Str(name)]));
      r := StartSession(reply);
    }

    /** `logout`: storage, token and user are cleared. */
    method Logout()
      modifies this
      ensures Valid() && !IsAuthenticated()
      ensures storedToken == None && token == None && user == J.Null && loading == old(loading)
    {
      storedToken := None;
      token := None;
      user := J.Null;
    }
  }

  // ---------------------------------------------------------------- the route guard

  datatype Guard = ShowLoading | RedirectToLogin(replace: bool) | RenderChildren

  /** `ProtectedRoute`: the loading indicator while the session is being restored, else a
      replacing redirect to /login for a visitor, else the page. No role is consulted. */
  function RouteDecision(loading: bool, authenticated: bool): (g: Guard)
    ensures g == ShowLoading <==> loading
    ensures g.RedirectToLogin? <==> !loading && !authenticated
    ensures g.RedirectToLogin? ==> g.replace
    ensures g == RenderChildren <==> !loading && authenticated
  {
    if loading then ShowLoading
    else if !authenticated then RedirectToLogin(true)
    else RenderChildren
  }

  /** Once mounting is over, the guard lets through exactly the sessions whose user is truthy
      to JavaScript, whatever their role: any user object, even an empty one, is let through,
      and only a null (or falsy scalar) user is redirected. */
  lemma GuardAfterMount(p: AuthProvider)
    requires !p.loading
    ensures RouteDecision(p.loading, p.IsAuthenticated()) == RenderChildren <==> J.JsTruthy(p.user)
    ensures p.user.Obj? || p.user.Arr? ==> RouteDecision(p.loading, p.IsAuthenticated()) == RenderChildren
    ensures p.user == J.Null ==> RouteDecision(p.loading, p.IsAuthenticated()) == RedirectToLogin(true)
  {
  }

  // ---------------------------------------------------------------- dashboard dispatch

  datatype Dashboard = AdminDashboard | InstitutionDashboard | UserDashboard

  /** `user?.role`: absent for a null user or a user without the key. */
  function RoleOf(user: J.Value): (r: Option<J.Value>)
    ensures r.Some? <==> user.Obj? && "role" in user.fields
  {
    if user.Obj? && "role" in user.fields then Some(user.fields["role"]) else None
  }

  /** `Dashboard`: admin, then institution, and every other case the user dashboard. */
  function DashboardFor(user: J.Value): (d: Dashboard)
    ensures d == AdminDashboard <==> RoleOf(user) == Some(J.Str("admin"))
    ensures d == InstitutionDashboard <==> RoleOf(user) == Some(J.Str("institution"))
    ensures d == UserDashboard <==> RoleOf(user) !in {Some(J.Str("admin")), Some(J.Str("institution"))}
  {
    if RoleOf(user) == Some(J.Str("admin")) then AdminDashboard
    else if RoleOf(user) == Some(J.Str("institution")) then InstitutionDashboard
    else UserDashboard
  }

  /** The choice depends on the role alone: two users with the same role get the same
      dashboard, and no user means the user dashboard. */
  lemma DashboardDependsOnRoleOnly(u: J.Value, v: J.Value)
    requires RoleOf(u) == RoleOf(v)
    ensures DashboardFor(u) == DashboardFor(v)
    ensures DashboardFor(J.Null) == UserDashboard
  {
  }
}
