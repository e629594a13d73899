/**
 * The browser side of the session: the two `localStorage` keys
 * `auth_token` and `guest_mode`, the header built from the token, the
 * `/me` lookup and the login, guest and logout actions. The replies of the
 * server are parameters.
 */
module AuthClient {
  import opened Wrappers
  import Auth

  const TokenKey := "auth_token"
  const GuestKey := "guest_mode"

  /** The user record the server sends (without its password). */
  datatype AuthUser = AuthUser(id: int, username: string, isAdmin: bool)

  /** `localStorage.getItem("auth_token")`. */
  function TokenOf(items: map<string, string>): Option<string> {
    if TokenKey in items then Some(items[TokenKey]) else None
  }

  /** `isGuestMode()`: the flag is on exactly when the key holds the text `"true"`. */
  predicate GuestOf(items: map<string, string>) {
    GuestKey in items && items[GuestKey] == "true"
  }

  /** A stored token that is truthy, that is, present and not empty. */
  predicate HasToken(items: map<string, string>) {
    TokenOf(items).Some? && TokenOf(items).value != ""
  }

  /** `authHeaders()`: a bearer `Authorization` header when a token is stored, no header otherwise. */
  function HeadersOf(items: map<string, string>): (h: map<string, string>)
    ensures HasToken(items) ==> h == map["Authorization" := "Bearer " + items[TokenKey]]
    ensures !HasToken(items) ==> h == map[]
  {
    if HasToken(items) then map["Authorization" := "Bearer " + items[TokenKey]] else map[]
  }

  /** The header the client sends is read back by the server's middleware as exactly the stored token. */
  lemma HeaderCarriesToken(items: map<string, string>)
    requires HasToken(items)
    ensures "Authorization" in HeadersOf(items)
    ensures Auth.BearerToken(Some(HeadersOf(items)["Authorization"])) == Some(items[TokenKey])
  {
    Auth.BearerOfToken(items[TokenKey]);
  }

  /** What the server answered to `GET /api/auth/me`; `NetworkError` is a rejected `fetch`. */
  datatype MeReply = NetworkError | MeReply(status: int, user: Option<AuthUser>)

  /** What `POST /api/auth/login` answered: for a 2xx status, the token in the body; otherwise the error message. */
  datatype LoginReply = LoginFailed | LoginReply(ok: bool, message: string, user: AuthUser, token: string)

  /** The flags `useAuth` returns, derived from the `/me` result and the guest key. */
  datatype AuthFlags = AuthFlags(user: Option<AuthUser>, isLoading: bool, isAuthenticated: bool, isAdmin: bool, isGuest: bool)

  /** The derived flags: signed in exactly when there is a user, admin only as that user says, never loading in guest mode. */
  function Flags(user: Option<AuthUser>, isLoading: bool, guest: bool): (f: AuthFlags)
    ensures f.isAuthenticated <==> user.Some?
    ensures f.isAdmin <==> user.Some? && user.value.isAdmin
    ensures guest ==> !f.isLoading
    ensures !guest ==> f.isLoading == isLoading
    ensures f.user == user && f.isGuest == guest
  {
    AuthFlags(user, if guest then false else isLoading, user.Some?, user.Some? && user.value.isAdmin, guest)
  }

  /** An administrator's flags are always those of a signed-in user. */
  lemma AdminIsSignedIn(user: Option<AuthUser>, isLoading: bool, guest: bool)
    ensures Flags(user, isLoading, guest).isAdmin ==> Flags(user, isLoading, guest).isAuthenticated
  {
  }

  /** The browser's `localStorage` as the session code uses it. */
  class Browser {
    var items: map<string, string>

    constructor (initial: map<string, string>)
      ensures items == initial
    {
      items := initial;
    }

    function GetToken(): Option<string>
      reads this
    {
      TokenOf(items)
    }

    predicate IsGuestMode()
      reads this
    {
      GuestOf(items)
    }

    function AuthHeaders(): map<string, string>
      reads this
    {
      HeadersOf(items)
    }

    method SetToken(token: string)
      modifies this
      ensures items == old(items)[TokenKey := token]
      ensures GetToken() == Some(token)
      ensures IsGuestMode() == old(IsGuestMode())
    {
      items := items[TokenKey := token];
    }

    method ClearToken()
      modifies this
      ensures items == old(items) - {TokenKey}
      ensures GetToken().None? && AuthHeaders() == map[]
      ensures IsGuestMode() == old(IsGuestMode())
    {
      items := items - {TokenKey};
    }

    /** `setGuestMode(val)`: writes `"true"` or removes the key, so that the flag then reads `val`. */
    method SetGuestMode(val: bool)
      modifies this
      ensures val ==> items == old(items)[GuestKey := "true"]
      ensures !val ==> items == old(items) - {GuestKey}
      ensures IsGuestMode() == val
      ensures GetToken() == old(GetToken())
    {
      if val {
        items := items[GuestKey := "true"];
      } else {
        items := items - {GuestKey};
      }
    }

    /**
     * The `/me` query: no request in guest mode or without a token; a 401
     * drops the stored token; any other failure yields no user but keeps it.
     */
    method Me(reply: MeReply) returns (user: Option<AuthUser>, sent: bool)
      modifies this
      ensures sent <==> !old(IsGuestMode()) && old(HasToken(items))
      ensures !sent ==> user.None? && items == old(items)
      ensures sent && reply.MeReply? && reply.status == 401 ==> user.None? && items == old(items) - {TokenKey}
      ensures sent && reply.MeReply? && reply.status != 401 ==>
                items == old(items) && user == (if 200 <= reply.status <= 299 then reply.user else None)
      ensures sent && reply.NetworkError? ==> user.None? && items == old(items)
    {
      if IsGuestMode() {
        return None, false;
      }
      var token := GetToken();
      if token.None? || token.value == "" {
        return None, false;
      }
      if reply.NetworkError? {
        return None, true;
      }
      if reply.status == 401 {
        ClearToken();
        return None, true;
      }
      if !(200 <= reply.status <= 299) {
        return None, true;
      }
      return reply.user, true;
    }

    /**
     * The login action: on a successful reply guest mode is switched off
     * and the new token stored; on a failed one it fails with the server's
     * message (or a default) and nothing is stored.
     */
    method Login(reply: LoginReply) returns (r: Result<AuthUser>)
      modifies this
      ensures r.Success? <==> reply.LoginReply? && reply.ok
      ensures r.Success? ==> r.value == reply.user && items == (old(items) - {GuestKey})[TokenKey := reply.token]
      ensures r.Success? ==> !IsGuestMode() && GetToken() == Some(reply.token)
      ensures r.Failure? ==> items == old(items)
      ensures reply.LoginReply? && !reply.ok ==> r == Failure(if reply.message != "" then reply.message else "Erro ao fazer login")
    {
      if reply.LoginFailed? {
        return Failure("Failed to fetch");
      }
      if !reply.ok {
        return Failure(if reply.message != "" then reply.message else "Erro ao fazer login");
      }
      SetGuestMode(false);
      SetToken(reply.token);
      return Success(reply.user);
    }

    /** The guest action: the token is dropped and guest mode switched on. */
    method EnterAsGuest()
      modifies this
      ensures items == (old(items) - {TokenKey})[GuestKey := "true"]
      ensures IsGuestMode() && GetToken().None? && AuthHeaders() == map[]
    {
      ClearToken();
      SetGuestMode(true);
    }

    /**
     * The logout action: the server is told only when a token is stored;
     * when that request fails the action fails before anything is cleared.
     * A completed logout leaves neither a token nor guest mode.
     */
    method Logout(networkError: bool) returns (sent: bool, completed: bool)
      modifies this
      ensures sent <==> old(HasToken(items))
      ensures completed <==> !(sent && networkError)
      ensures completed ==> items == old(items) - {TokenKey, GuestKey} && GetToken().None? && !IsGuestMode()
      ensures !completed ==> items == old(items)
    {
      var token := GetToken();
      sent := token.Some? && token.value != "";
      if sent && networkError {
        return sent, false;
      }
      ClearToken();
      SetGuestMode(false);
      assert items == old(items) - {TokenKey, GuestKey};
      return sent, true;
    }
  }
}
