/**
 * The HTTP handlers of the planning API: the authentication guards, login,
 * logout and `/me`, the bulk save and the full-state read. A handler's
 * reply is a status code and a JSON body.
 */
module Routes {
  import opened Wrappers
  import opened Values
  import opened Table
  import opened Storage
  import opened Auth
  import opened IsoWeek

  datatype Response = Response(status: int, body: Value)

  function Message(status: int, text: string): Response {
    Response(status, Obj(map["message" := Str(text)]))
  }

  const OkResponse: Response := Response(200, Obj(map["ok" := Bool(true)]))

  /** What a guard does with a request: pass it on, or answer it. */
  datatype Guard = Next | Deny(response: Response)

  /** `requireAuth`: only authenticated requests go on; the rest are answered 401. */
  function RequireAuth(ctx: RequestContext): (g: Guard)
    ensures g.Next? <==> ctx.authenticated
    ensures g.Deny? ==> g.response.status == 401
  {
    if ctx.authenticated then Next else Deny(Message(401, "Não autenticado"))
  }

  /** `requireAdmin`: only authenticated administrators go on; everyone else, signed in or not, is answered 403. */
  function RequireAdmin(ctx: RequestContext): (g: Guard)
    ensures g.Next? <==> ctx.authenticated && ctx.user.Some? && ctx.user.value.isAdmin
    ensures g.Deny? ==> g.response.status == 403
  {
    if ctx.authenticated && ctx.user.Some? && ctx.user.value.isAdmin then Next else Deny(Message(403, "Acesso negado"))
  }

  /** Whatever passes the admin guard passes the authentication guard. */
  lemma AdminIsAuthenticated(ctx: RequestContext)
    ensures RequireAdmin(ctx).Next? ==> RequireAuth(ctx).Next?
    ensures RequireAuth(ctx).Deny? ==> RequireAdmin(ctx).Deny?
  {
  }

  /** The user record as sent to the client: every column except `password`. */
  function SafeUser(u: User): (v: Value)
    ensures v.Obj? && "password" !in v.fields
    ensures v.fields.Keys == {"id", "username", "isAdmin"}
    ensures v.fields["id"] == Num(u.id) && v.fields["username"] == Str(u.username) && v.fields["isAdmin"] == Bool(u.isAdmin)
  {
    Obj(map["id" := Num(u.id), "username" := Str(u.username), "isAdmin" := Bool(u.isAdmin)])
  }

  /** The decision the login handler reaches before a token is issued. */
  datatype LoginOutcome =
    | MissingFields
    | UnknownUser
    | WrongPassword
    | Thrown(error: string)
    | Accepted(user: User)

  /**
   * The checks of `POST /api/auth/login`, in order: both fields present
   * (truthy), a user of that name, then the password comparison, which
   * may throw. A username that is not a string matches no user; a password
   * that is not a string makes the key derivation throw.
   */
  function LoginDecision(users: seq<User>, body: Value, kdf: Kdf): LoginOutcome {
    if body.Undefined? || body.Null? then Thrown("Cannot destructure 'req.body'")
    else
      var username := Get(body, "username");
      var password := Get(body, "password");
      if !Truthy(username) || !Truthy(password) then MissingFields
      else if !username.Str? || UserNamed(users, username.s).None? then UnknownUser
      else if !password.Str? then Thrown("The \"password\" argument must be a string")
      else
        var user := UserNamed(users, username.s).value;
        match ComparePasswords(password.s, user.password, kdf)
        case Failure(e) => Thrown(e)
        case Success(valid) => if valid then Accepted(user) else WrongPassword
  }

  /** A login is accepted only for the user of that name, and only when the password checks out. */
  lemma LoginAcceptedSpec(users: seq<User>, body: Value, kdf: Kdf)
    ensures LoginDecision(users, body, kdf).Accepted? <==>
              Get(body, "username").Str? && Get(body, "username") != Str("")
              && Get(body, "password").Str? && Get(body, "password") != Str("")
              && UserNamed(users, Get(body, "username").s).Some?
              && ComparePasswords(Get(body, "password").s, UserNamed(users, Get(body, "username").s).value.password, kdf) == Success(true)
    ensures LoginDecision(users, body, kdf).Accepted? ==>
              LoginDecision(users, body, kdf).user.username == Get(body, "username").s
  {
  }

  /**
   * A user whose stored password is a hash of `password` logs in with
   * exactly the passwords that derive the same key under its salt; in
   * particular with `password` itself.
   */
  lemma LoginWithHashedPassword(users: seq<User>, name: string, password: string, supplied: string, saltBytes: seq<Byte>, kdf: Kdf)
    requires name != "" && supplied != ""
    requires UserNamed(users, name).Some?
    requires UserNamed(users, name).value.password == HashPassword(password, saltBytes, kdf)
    ensures var body := Obj(map["username" := Str(name), "password" := Str(supplied)]);
            LoginDecision(users, body, kdf)
            == if kdf(supplied, HexEncode(saltBytes)) == kdf(password, HexEncode(saltBytes))
               then Accepted(UserNamed(users, name).value) else WrongPassword
  {
    CompareHashed(supplied, password, saltBytes, kdf);
  }

  /** Missing credentials are answered 400 whatever users exist. */
  lemma LoginMissingFields(users: seq<User>, body: Value, kdf: Kdf)
    requires !body.Undefined? && !body.Null?
    ensures LoginDecision(users, body, kdf) == MissingFields <==> !Truthy(Get(body, "username")) || !Truthy(Get(body, "password"))
  {
  }

  function LoginStatus(d: LoginOutcome): int {
    match d
    case MissingFields => 400
    case UnknownUser => 401
    case WrongPassword => 401
    case Thrown(_) => 500
    case Accepted(_) => 200
  }

  /** The success body: the user without its password, plus the new token. */
  function LoginBody(u: User, token: string): (v: Value)
    ensures v.Obj? && "password" !in v.fields && "token" in v.fields && v.fields["token"] == Str(token)
  {
    Obj(SafeUser(u).fields["token" := Str(token)])
  }

  /**
   * `POST /api/auth/login`. Only an accepted login issues a token; every
   * other outcome leaves the token table as it was. The token comes from
   * `randomBytes`, the expiry from the clock `now`.
   */
  method Login(store: DatabaseStorage, body: Value, kdf: Kdf, randomBytes: seq<Byte>, now: int) returns (res: Response)
    modifies store`tokens
    ensures var d := LoginDecision(store.users, body, kdf);
            if d.Accepted? && HexEncode(randomBytes) !in old(store.tokens) then
              res == Response(200, LoginBody(d.user, HexEncode(randomBytes)))
              && store.tokens == old(store.tokens)[HexEncode(randomBytes) := TokenInfo(d.user.id, now + TokenLifetimeMs)]
            else
              res.status == (if d.Accepted? then 500 else LoginStatus(d))
              && store.tokens == old(store.tokens)
  {
    if body.Undefined? || body.Null? {
      return Message(500, "Erro interno ao fazer login");
    }
    var username := Get(body, "username");
    var password := Get(body, "password");
    if !Truthy(username) || !Truthy(password) {
      return Message(400, "Usuário e senha são obrigatórios");
    }
    var user := if username.Str? then store.GetUserByUsername(username.s) else None;
    if user.None? {
      return Message(401, "Usuário não encontrado");
    }
    if !password.Str? {
      return Message(500, "Erro interno ao fazer login");
    }
    var valid := ComparePasswords(password.s, user.value.password, kdf);
    if valid.Failure? {
      return Message(500, "Erro interno ao fazer login");
    }
    if !valid.value {
      return Message(401, "Senha incorreta");
    }
    var token := CreateToken(store, user.value.id, randomBytes, now);
    if token.Failure? {
      return Message(500, "Erro interno ao fazer login");
    }
    return Response(200, LoginBody(user.value, token.value));
  }

  /** `POST /api/auth/logout`: always `{ok: true}`; a bearer token, if one is sent, is revoked. */
  method Logout(store: DatabaseStorage, header: Option<string>) returns (res: Response)
    modifies store`tokens
    ensures res == OkResponse
    ensures BearerToken(header).Some? ==> store.tokens == old(store.tokens) - {BearerToken(header).value}
    ensures BearerToken(header).None? ==> store.tokens == old(store.tokens)
  {
    var token := BearerToken(header);
    if token.Some? {
      RemoveToken(store, token.value);
    }
    return OkResponse;
  }

  /** `GET /api/auth/me`: the signed-in user without its password, or 401. */
  function Me(ctx: RequestContext): (res: Response)
    ensures res.status == 200 <==> ctx.authenticated && ctx.user.Some?
    ensures !ctx.authenticated ==> res.status == 401
    ensures res.status == 200 ==> res.body == SafeUser(ctx.user.value)
  {
    if !ctx.authenticated then Message(401, "Não autenticado")
    else if ctx.user.None? then Message(500, "Internal Server Error")
    else Response(200, SafeUser(ctx.user.value))
  }

  /** The entries `save-all` upserts for one body field: those of a non-null object, none otherwise. */
  function SavedEntries(v: Value): (m: map<string, Value>)
    ensures !(Truthy(v) && IsObject(v)) ==> m == map[]
    ensures v.Obj? ==> m == v.fields
  {
    if Truthy(v) && IsObject(v) then Entries(v) else map[]
  }

  /** Merging one more entry into an overlay. */
  lemma MergeStep(base: map<string, Value>, done: map<string, Value>, k: string, v: Value)
    ensures (base + done)[k := v] == base + done[k := v]
  {
  }

  /**
   * `if (weeks && typeof weeks === "object") for (const [weekKey, x] of Object.entries(weeks))
   * await storage.savePcpState(weekKey, x)`: the bucket gains every entry of the field.
   */
  method SaveWeeks(store: DatabaseStorage, weeks: Value)
    requires store.Valid()
    modifies store`states
    ensures store.Valid()
    ensures ToMap(store.states) == ToMap(old(store.states)) + SavedEntries(weeks)
    ensures !(Truthy(weeks) && IsObject(weeks)) ==> store.states == old(store.states)
  {
    if !(Truthy(weeks) && IsObject(weeks)) {
      return;
    }
    var entries := Entries(weeks);
    var todo := entries.Keys;
    ghost var base := ToMap(store.states);
    ghost var done: map<string, Value> := map[];
    assert base + done == base;
    while todo != {}
      invariant todo <= entries.Keys
      invariant done.Keys == entries.Keys - todo
      invariant forall k :: k in done ==> done[k] == entries[k]
      invariant store.Valid()
      invariant ToMap(store.states) == base + done
      decreases |todo|
    {
      var k :| k in todo;
      MergeStep(base, done, k, entries[k]);
      store.SavePcpState(k, entries[k]);
      done := done[k := entries[k]];
      todo := todo - {k};
    }
    assert done == entries;
  }

  /**
   * `if (comments && typeof comments === "object") for (const [weekKey, x] of Object.entries(comments))
   * await storage.savePcpComments(weekKey, x)`: the bucket gains every entry of the field.
   */
  method SaveComments(store: DatabaseStorage, comments: Value)
    requires store.Valid()
    modifies store`comments
    ensures store.Valid()
    ensures ToMap(store.comments) == ToMap(old(store.comments)) + SavedEntries(comments)
    ensures !(Truthy(comments) && IsObject(comments)) ==> store.comments == old(store.comments)
  {
    if !(Truthy(comments) && IsObject(comments)) {
      return;
    }
    var entries := Entries(comments);
    var todo := entries.Keys;
    ghost var base := ToMap(store.comments);
    ghost var done: map<string, Value> := map[];
    assert base + done == base;
    while todo != {}
      invariant todo <= entries.Keys
      invariant done.Keys == entries.Keys - todo
      invariant forall k :: k in done ==> done[k] == entries[k]
      invariant store.Valid()
      invariant ToMap(store.comments) == base + done
      decreases |todo|
    {
      var k :| k in todo;
      MergeStep(base, done, k, entries[k]);
      store.SavePcpComments(k, entries[k]);
      done := done[k := entries[k]];
      todo := todo - {k};
    }
    assert done == entries;
  }

  /**
   * `if (notes && typeof notes === "object") for (const [weekKey, x] of Object.entries(notes))
   * await storage.savePcpNotes(weekKey, x)`: the bucket gains every entry of the field.
   */
  method SaveNotes(store: DatabaseStorage, notes: Value)
    requires store.Valid()
    modifies store`notes
    ensures store.Valid()
    ensures ToMap(store.notes) == ToMap(old(store.notes)) + SavedEntries(notes)
    ensures !(Truthy(notes) && IsObject(notes)) ==> store.notes == old(store.notes)
  {
    if !(Truthy(notes) && IsObject(notes)) {
      return;
    }
    var entries := Entries(notes);
    var todo := entries.Keys;
    ghost var base := ToMap(store.notes);
    ghost var done: map<string, Value> := map[];
    assert base + done == base;
    while todo != {}
      invariant todo <= entries.Keys
      invariant done.Keys == entries.Keys - todo
      invariant forall k :: k in done ==> done[k] == entries[k]
      invariant store.Valid()
      invariant ToMap(store.notes) == base + done
      decreases |todo|
    {
      var k :| k in todo;
      MergeStep(base, done, k, entries[k]);
      store.SavePcpNotes(k, entries[k]);
      done := done[k := entries[k]];
      todo := todo - {k};
    }
    assert done == entries;
  }

  /** The writes of `save-all` once the request has passed the guard, in the handler's order. */
  method SaveBody(store: DatabaseStorage, body: Value)
    requires store.Valid()
    modifies store`states, store`comments, store`notes, store`params, store`coverage
    ensures store.Valid()
    ensures ToMap(store.states) == ToMap(old(store.states)) + SavedEntries(Get(body, "weeks"))
    ensures ToMap(store.comments) == ToMap(old(store.comments)) + SavedEntries(Get(body, "comments"))
    ensures ToMap(store.notes) == ToMap(old(store.notes)) + SavedEntries(Get(body, "notes"))
    ensures store.params == (if Truthy(Get(body, "params")) then [Get(body, "params")] else old(store.params))
    ensures store.coverage == (if Truthy(Get(body, "coverage")) then [Get(body, "coverage")] else old(store.coverage))
    ensures !(Truthy(Get(body, "weeks")) && IsObject(Get(body, "weeks"))) ==> store.states == old(store.states)
    ensures !(Truthy(Get(body, "comments")) && IsObject(Get(body, "comments"))) ==> store.comments == old(store.comments)
    ensures !(Truthy(Get(body, "notes")) && IsObject(Get(body, "notes"))) ==> store.notes == old(store.notes)
  {
    var weeks := Get(body, "weeks");
    var comments := Get(body, "comments");
    var params := Get(body, "params");
    var notes := Get(body, "notes");
    var coverage := Get(body, "coverage");
    SaveWeeks(store, weeks);
    SaveComments(store, comments);
    if Truthy(params) {
      store.SavePcpParams(params);
    }
    SaveNotes(store, notes);
    if Truthy(coverage) {
      store.SavePcpCoverage(coverage);
    }
  }

  /**
   * `POST /api/pcp/save-all`, behind the admin guard. Every entry of
   * `weeks`, `comments` and `notes` (when the field is an object) is
   * upserted into its bucket, and `params` and `coverage` are saved when
   * truthy; a field that is absent leaves its bucket as it was. A request
   * that is not from an administrator is answered 403 and writes nothing.
   */
  method SaveAll(store: DatabaseStorage, ctx: RequestContext, body: Value) returns (res: Response)
    requires store.Valid()
    modifies store`states, store`comments, store`notes, store`params, store`coverage
    ensures store.Valid()
    ensures RequireAdmin(ctx).Deny? || body.Undefined? || body.Null? ==>
              store.states == old(store.states) && store.comments == old(store.comments) && store.notes == old(store.notes)
              && store.params == old(store.params) && store.coverage == old(store.coverage)
    ensures RequireAdmin(ctx).Deny? ==> res == RequireAdmin(ctx).response
    ensures RequireAdmin(ctx).Next? && (body.Undefined? || body.Null?) ==> res.status == 500
    ensures RequireAdmin(ctx).Next? && !body.Undefined? && !body.Null? ==>
              res == OkResponse
              && ToMap(store.states) == ToMap(old(store.states)) + SavedEntries(Get(body, "weeks"))
              && ToMap(store.comments) == ToMap(old(store.comments)) + SavedEntries(Get(body, "comments"))
              && ToMap(store.notes) == ToMap(old(store.notes)) + SavedEntries(Get(body, "notes"))
              && store.params == (if Truthy(Get(body, "params")) then [Get(body, "params")] else old(store.params))
              && store.coverage == (if Truthy(Get(body, "coverage")) then [Get(body, "coverage")] else old(store.coverage))
  {
    var guard := RequireAdmin(ctx);
    if guard.Deny? {
      return guard.response;
    }
    if body.Undefined? || body.Null? {
      return Message(500, "Erro ao salvar: Cannot destructure 'req.body'");
    }
    SaveBody(store, body);
    return OkResponse;
  }

  /** The body of `GET /api/pcp/full-state`. */
  datatype FullStateBody = FullStateBody(
    weeks: map<string, Value>,
    params: Value,
    coverage: Value,
    comments: map<string, Value>,
    notes: map<string, Value>,
    expectedWeeks: seq<string>)

  /**
   * `GET /api/pcp/full-state`: every stored week state keyed by its week
   * (one entry per row, except a row keyed `__proto__`), the two singletons, every week's comments and
   * notes, and the nine-week window starting at the week of `today`
   * (a day count since 1970-01-01).
   */
  method FullState(store: DatabaseStorage, today: int) returns (r: FullStateBody)
    requires store.Valid()
    ensures r.weeks.Keys == KeysOf(store.states) - {ProtoKey}
    ensures |r.weeks| + (if ProtoKey in KeysOf(store.states) then 1 else 0) == |store.states|
    ensures forall i :: 0 <= i < |store.states| && store.states[i].key != ProtoKey ==> r.weeks[store.states[i].key] == store.states[i].value
    ensures r.params == store.GetPcpParams() && r.coverage == store.GetPcpCoverage()
    ensures r.comments.Keys == KeysOf(store.comments) - {ProtoKey}
    ensures forall i :: 0 <= i < |store.comments| && store.comments[i].key != ProtoKey ==> r.comments[store.comments[i].key] == store.comments[i].value
    ensures r.notes.Keys == KeysOf(store.notes) - {ProtoKey}
    ensures forall i :: 0 <= i < |store.notes| && store.notes[i].key != ProtoKey ==> r.notes[store.notes[i].key] == store.notes[i].value
    ensures |r.expectedWeeks| == 9
    ensures forall i :: 0 <= i < 9 ==> r.expectedWeeks[i] == AddWeeks(CurrentIsoWeek(today), i)
    ensures IsoYear(today) >= 100 ==> r.expectedWeeks[0] == CurrentIsoWeek(today)
    ensures IsoYear(today) >= 100 ==> forall i, j :: 0 <= i < j < 9 ==> r.expectedWeeks[i] != r.expectedWeeks[j]
  {
    var allStates := store.GetAllPcpStates();
    var weeks := Collect(allStates);
    MapOfFirstSize(allStates, |allStates|);
    MapOfFirstKeys(allStates, |allStates|);
    DropSize(ToMap(allStates));
    var params := store.GetPcpParams();
    var coverage := store.GetPcpCoverage();
    var comments := store.GetAllPcpComments();
    var notes := store.GetAllPcpNotes();
    var expectedWeeks := ExpectedWeekKeys(today);
    r := FullStateBody(weeks, params, coverage, comments, notes, expectedWeeks);
  }

  /**
   * A week saved under the key `__proto__` (an own key of a parsed request
   * body, so `Object.entries` yields it at save-all) is stored and reads
   * back through `getPcpState`, yet the full state leaves it out of `weeks`.
   */
  method ProtoWeekLost(store: DatabaseStorage, data: Value, today: int) returns (r: FullStateBody)
    requires store.Valid()
    modifies store`states
    ensures ProtoKey in KeysOf(store.states) && store.GetPcpState(ProtoKey) == Nullish(data, Null)
    ensures ProtoKey !in r.weeks && |r.weeks| + 1 == |store.states|
  {
    ghost var before := store.states;
    store.SavePcpState(ProtoKey, data);
    UpsertSpec(before, ProtoKey, data);
    r := FullState(store, today);
  }
}
