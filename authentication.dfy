/**
 * The client's authentication service, HTTP interceptor and route guard
 * (client/src/authentication.service.ts). HTTP outcomes are parameters; the
 * `sessionStorage` entry "access_token" is the field `stored`.
 */
module Authentication {
  import opened Wrappers

  /** The account as the server returns it. */
  datatype User = User(userId: string, username: string, displayName: string)

  /** The `AuthState` record of lines 17-22. */
  datatype AuthState = AuthState(
    user: Option<User>,
    token: Option<string>,
    loggingIn: bool,
    loading: bool)

  /** The state written by `logout` and by a failed login. */
  const LoggedOut := AuthState(None, None, false, false)

  /** What the `/account` request ended with: a JSON body (possibly `null`) or an error. */
  datatype AccountReply = Body(user: Option<User>) | Failure

  /** A token the `!token` test of lines 117 and 146 lets through. */
  predicate Usable(token: Option<string>) {
    token.Some? && token.value != ""
  }

  const AuthorizationHeader := "Authorization"
  const BearerPrefix := "Bearer "

  /**
   * `AuthenticationInterceptor.intercept` (lines 143-153): without a usable
   * stored token the headers are unchanged; otherwise "Authorization" is set
   * to the bearer credential and every other header is kept.
   */
  function Intercept(headers: map<string, string>, stored: Option<string>): (r: map<string, string>)
    ensures !Usable(stored) ==> r == headers
    ensures Usable(stored) ==>
      AuthorizationHeader in r && r[AuthorizationHeader] == BearerPrefix + stored.value
    ensures forall h :: h != AuthorizationHeader ==> (h in r <==> h in headers)
    ensures forall h :: h != AuthorizationHeader && h in r ==> r[h] == headers[h]
  {
    if !Usable(stored) then headers
    else headers[AuthorizationHeader := BearerPrefix + stored.value]
  }

  /** Intercepting twice with the same token gives the same headers as once. */
  lemma InterceptIdempotent(headers: map<string, string>, stored: Option<string>)
    ensures Intercept(Intercept(headers, stored), stored) == Intercept(headers, stored)
  {
    var once := Intercept(headers, stored);
    var twice := Intercept(once, stored);
    assert forall h :: h in twice <==> h in once;
    assert forall h :: h in twice ==> twice[h] == once[h];
  }

  /**
   * `AuthenticationGuard.canActivate`'s decision (lines 168-179): the route
   * opens iff an account was loaded; otherwise the guard navigates to "/".
   */
  function GuardDecision(loaded: Option<User>): (r: (bool, bool))
    ensures r.0 <==> loaded.Some?
    ensures r.1 <==> !r.0
  {
    if loaded.Some? then (true, false) else (false, true)
  }

  /** The authentication service: its state signal and the stored token. */
  class AuthenticationService {
    var state: AuthState
    var stored: Option<string>

    /**
     * The states the service can be in: the effect of lines 47-55 keeps the
     * stored token equal to the state's, a login in flight has no user and
     * no token, and an account being loaded has no user yet.
     */
    ghost predicate Valid()
      reads this
    {
      && stored == state.token
      && (state.loggingIn ==> state.user.None? && state.token.None? && !state.loading)
      && (state.loading ==> state.user.None?)
    }

    /** Lines 30-35: nobody logged in, the token read back from storage. */
    constructor (storedToken: Option<string>)
      ensures state == AuthState(None, storedToken, false, false)
      ensures Valid()
    {
      state := AuthState(None, storedToken, false, false);
      stored := storedToken;
    }

    /** `logout` (lines 96-104): always the logged-out state, whatever came before. */
    method Logout()
      modifies this
      ensures state == LoggedOut && Valid()
    {
      state := LoggedOut;
      stored := state.token;
    }

    /**
     * The synchronous part of `loadAccount` (lines 106-122): keep the token
     * and start loading; without a usable token log out and answer `null`
     * at once, otherwise the `/account` request goes out (`fetching`).
     */
    method LoadAccount() returns (fetching: bool)
      modifies this
      ensures fetching <==> Usable(old(state.token))
      ensures fetching ==> state == AuthState(None, old(state.token), false, true)
      ensures !fetching ==> state == LoggedOut
      ensures Valid()
    {
      var token := state.token;
      state := AuthState(None, token, false, true);
      stored := state.token;
      if !Usable(token) {
        Logout();
        return false;
      }
      return true;
    }

    /**
     * The `tap` of lines 123-135: a body sets the user and keeps the current
     * token; an error logs out.
     */
    method OnAccountReply(reply: AccountReply)
      modifies this
      ensures reply.Body? ==> state == AuthState(reply.user, old(state.token), false, false)
      ensures reply.Failure? ==> state == LoggedOut
      ensures Valid()
    {
      match reply
      case Body(user) =>
        state := AuthState(user, state.token, false, false);
        stored := state.token;
      case Failure =>
        Logout();
    }

    /** The start of `login` (lines 59-64): user and token cleared, logging in. */
    method StartLogin()
      modifies this
      ensures state == AuthState(None, None, true, false) && Valid()
    {
      state := AuthState(None, None, true, false);
      stored := state.token;
    }

    /**
     * The end of `login` (lines 66-93) once the `/login` request answered:
     * on success the token is stored, loading starts and `loadAccount` runs;
     * on failure the service is logged out. `ok` is the value `login` returns.
     */
    method FinishLogin(response: Option<string>) returns (ok: bool, fetching: bool)
      modifies this
      ensures ok <==> response.Some?
      ensures fetching <==> Usable(response)
      ensures fetching ==> state == AuthState(None, response, false, true)
      ensures !fetching ==> state == LoggedOut
      ensures Valid()
    {
      match response
      case Some(token) =>
        state := AuthState(None, Some(token), false, true);
        stored := state.token;
        fetching := LoadAccount();
        ok := true;
      case None =>
        state := LoggedOut;
        stored := state.token;
        ok := false;
        fetching := false;
    }

    /**
     * `AuthenticationGuard.canActivate` (lines 163-182): load the account,
     * take its first answer (`null` at once without a usable token, else the
     * request's reply) and allow the route iff a user came back.
     */
    method CanActivate(reply: AccountReply) returns (allow: bool, navigateHome: bool)
      modifies this
      ensures allow <==> Usable(old(state.token)) && reply.Body? && reply.user.Some?
      ensures navigateHome <==> !allow
      ensures Usable(old(state.token)) && reply.Body? ==> state == AuthState(reply.user, old(state.token), false, false)
      ensures !Usable(old(state.token)) || reply.Failure? ==> state == LoggedOut
      ensures Valid()
    {
      var fetching := LoadAccount();
      var loaded: Option<User> := None;
      if fetching {
        OnAccountReply(reply);
        if reply.Body? {
          loaded := reply.user;
        }
      }
      var decision := GuardDecision(loaded);
      allow, navigateHome := decision.0, decision.1;
    }
  }
}
