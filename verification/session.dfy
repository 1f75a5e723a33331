/** The authentication provider: a session `(user, token, loading)` kept in
    step with a two-slot durable store ("token", "user"), restored at startup,
    and changed only by login, register and logout. Remote calls are a
    parameter that maps the posted request to the reply; state updates and
    the persistence effects are atomic transitions. */
module Session {
  import opened Common

  const TOKEN_KEY: string := "token"
  const USER_KEY: string := "user"
  /** Where the host UI is sent after a successful login or registration. */
  const HOME_ROUTE: string := "/categories"
  /** Where the host UI is sent after logout. */
  const LOGIN_ROUTE: string := "/login"
  const LOGIN_PATH: string := "/auth/login"
  const REGISTER_PATH: string := "/auth/register"

  /** Durable string storage; a missing key reads as `null`. */
  type Store = map<string, string>

  datatype User = User(id: string, name: string, email: string,
                       role: Option<string>, avatar: Option<string>)

  /** JSON for the stored user. `parse` is partial: None is a thrown parse
      error, `Some(None)` is the JSON `null`. */
  datatype UserCodec = UserCodec(parse: string -> Option<Option<User>>, stringify: User -> string)

  /** JSON.parse reads the text "null" as null. */
  predicate ParsesNull(codec: UserCodec)
  {
    codec.parse("null") == Some(None)
  }

  /** JSON.stringify of a user object is non-empty text that JSON.parse reads
      back as the same user. */
  ghost predicate RoundTrips(codec: UserCodec)
  {
    forall u :: codec.stringify(u) != "" && codec.parse(codec.stringify(u)) == Some(Some(u))
  }

  datatype Session = Session(user: Option<User>, token: Option<string>, loading: bool)

  /** The session together with the store it writes through to. */
  datatype Client = Client(session: Session, store: Store)

  /** Body of an authentication post. */
  datatype AuthBody =
    | Credentials(email: string, password: string)
    | Profile(name: string, email: string, password: string, avatar: Option<string>)

  datatype Post = Post(path: string, body: AuthBody)

  /** The server's reply: the session it grants, or an error carrying the
      server's message when the response had one and the transport message. */
  datatype AuthReply = Granted(token: string, user: User) | Denied(serverMessage: Option<string>, transportMessage: string)

  /** `{ ok: true }` or `{ ok: false, error }`. */
  datatype AuthResult = Succeeded | Failed(error: string)

  datatype AuthStep = AuthStep(
    pending: Client,         // the state while the post is in flight
    posted: Post,            // what was posted
    client: Client,          // the state once the reply is handled
    result: AuthResult,
    redirect: Option<string>)

  datatype LogoutStep = LogoutStep(client: Client, redirect: string)

  // ---------------------------------------------------------------------------
  // The store and its agreement with the session

  /** No entry other than the two session slots differs. */
  ghost predicate OthersUnchanged(a: Store, b: Store)
  {
    forall k :: k != TOKEN_KEY && k != USER_KEY ==> Get(a, k) == Get(b, k)
  }

  /** The token slot holds the token when it is truthy and is absent otherwise. */
  predicate TokenSynced(token: Option<string>, store: Store)
  {
    if Truthy(token) then Get(store, TOKEN_KEY) == token else TOKEN_KEY !in store
  }

  /** The user slot holds the serialised user, or is absent when there is none. */
  predicate UserSynced(user: Option<User>, store: Store, codec: UserCodec)
  {
    match user
    case Some(u) => Get(store, USER_KEY) == Some(codec.stringify(u))
    case None => USER_KEY !in store
  }

  predicate Synced(s: Session, store: Store, codec: UserCodec)
  {
    TokenSynced(s.token, store) && UserSynced(s.user, store, codec)
  }

  /** The token effect: a truthy token is stored, anything else removes the key. */
  function WriteToken(token: Option<string>, store: Store): (r: Store)
    ensures TokenSynced(token, r)
    ensures Get(r, USER_KEY) == Get(store, USER_KEY)
    ensures OthersUnchanged(store, r)
  {
    if Truthy(token) then store[TOKEN_KEY := token.value] else store - {TOKEN_KEY}
  }

  /** The user effect: a user is stored as JSON, no user removes the key. */
  function WriteUser(user: Option<User>, codec: UserCodec, store: Store): (r: Store)
    ensures UserSynced(user, r, codec)
    ensures Get(r, TOKEN_KEY) == Get(store, TOKEN_KEY)
    ensures OthersUnchanged(store, r)
  {
    match user
    case Some(u) => store[USER_KEY := codec.stringify(u)]
    case None => store - {USER_KEY}
  }

  /** The two persistence effects after a state change: each runs only when
      its slot of the session changed. */
  function Effects(before: Session, after: Session, codec: UserCodec, store: Store): (r: Store)
    ensures Synced(before, store, codec) ==> Synced(after, r, codec)
    ensures before.token == after.token && before.user == after.user ==> r == store
    ensures OthersUnchanged(store, r)
  {
    var s1 := if before.token != after.token then WriteToken(after.token, store) else store;
    if before.user != after.user then WriteUser(after.user, codec, s1) else s1
  }

  // ---------------------------------------------------------------------------
  // Startup

  /** The stored token, `getItem("token") || null`. */
  function RestoreToken(store: Store): (t: Option<string>)
    ensures t.None? <==> !Truthy(Get(store, TOKEN_KEY))
    ensures t.Some? ==> t == Get(store, TOKEN_KEY) && t.value != ""
  {
    var stored := Get(store, TOKEN_KEY);
    if Truthy(stored) then stored else None
  }

  /** The stored user, `JSON.parse(getItem("user") || "null")` with a parse
      error caught and read as null. */
  function RestoreUser(store: Store, codec: UserCodec): (u: Option<User>)
    requires ParsesNull(codec)
    ensures !Truthy(Get(store, USER_KEY)) ==> u.None?
    ensures Truthy(Get(store, USER_KEY)) && codec.parse(store[USER_KEY]).None? ==> u.None?
    ensures Truthy(Get(store, USER_KEY)) && codec.parse(store[USER_KEY]).Some? ==>
              u == codec.parse(store[USER_KEY]).value
    ensures u.Some? ==> USER_KEY in store && codec.parse(store[USER_KEY]) == Some(u)
  {
    var stored := Get(store, USER_KEY);
    var text := if Truthy(stored) then stored.value else "null";
    match codec.parse(text)
    case None => None
    case Some(v) => v
  }

  /** Mounting the provider: both slots are restored independently, `loading`
      starts false, and both persistence effects run once, which drops an
      empty token and a corrupt user from the store. */
  function Mount(store: Store, codec: UserCodec): (c: Client)
    requires ParsesNull(codec)
    ensures c.session == Session(RestoreUser(store, codec), RestoreToken(store), false)
    ensures Synced(c.session, c.store, codec)
    ensures OthersUnchanged(store, c.store)
  {
    var s := Session(RestoreUser(store, codec), RestoreToken(store), false);
    Client(s, WriteUser(s.user, codec, WriteToken(s.token, store)))
  }

  // ---------------------------------------------------------------------------
  // Login, register, logout

  /** `err.response?.data?.message || err.message`. */
  function ErrorMessage(serverMessage: Option<string>, transportMessage: string): (m: string)
    ensures Truthy(serverMessage) ==> m == serverMessage.value
    ensures !Truthy(serverMessage) ==> m == transportMessage
  {
    if Truthy(serverMessage) then serverMessage.value else transportMessage
  }

  /** The shared body of login and register: raise `loading`, post, and on a
      granted reply take its token and user, on a denied one keep the session
      as it was; `loading` ends false either way. */
  function Authenticate(c: Client, post: Post, codec: UserCodec, server: Post -> AuthReply): (r: AuthStep)
    ensures r.posted == post
    ensures r.pending == Client(c.session.(loading := true), c.store)
    ensures !r.client.session.loading
    ensures server(post).Granted? ==>
              && r.client.session.token == Some(server(post).token)
              && r.client.session.user == Some(server(post).user)
              && r.result == Succeeded
              && r.redirect == Some(HOME_ROUTE)
    ensures server(post).Denied? ==>
              && r.client.session.token == c.session.token
              && r.client.session.user == c.session.user
              && r.client.store == c.store
              && r.result == Failed(ErrorMessage(server(post).serverMessage, server(post).transportMessage))
              && r.redirect.None?
    ensures Synced(c.session, c.store, codec) ==> Synced(r.client.session, r.client.store, codec)
    ensures OthersUnchanged(c.store, r.client.store)
  {
    var pending := Client(c.session.(loading := true), c.store);
    match server(post)
    case Granted(token, user) =>
      var s := Session(Some(user), Some(token), false);
      AuthStep(pending, post, Client(s, Effects(pending.session, s, codec, c.store)), Succeeded, Some(HOME_ROUTE))
    case Denied(serverMessage, transportMessage) =>
      var s := pending.session.(loading := false);
      AuthStep(pending, post, Client(s, c.store), Failed(ErrorMessage(serverMessage, transportMessage)), None)
  }

  /** `login(email, password)`: posts the credentials to the login endpoint. */
  function Login(c: Client, email: string, password: string, codec: UserCodec,
                 server: Post -> AuthReply): (r: AuthStep)
    ensures r.posted == Post(LOGIN_PATH, Credentials(email, password))
    ensures r == Authenticate(c, r.posted, codec, server)
  {
    Authenticate(c, Post(LOGIN_PATH, Credentials(email, password)), codec, server)
  }

  /** `register(body)`: posts the profile, unchanged, to the register endpoint. */
  function Register(c: Client, name: string, email: string, password: string, avatar: Option<string>,
                    codec: UserCodec, server: Post -> AuthReply): (r: AuthStep)
    ensures r.posted == Post(REGISTER_PATH, Profile(name, email, password, avatar))
    ensures r == Authenticate(c, r.posted, codec, server)
  {
    Authenticate(c, Post(REGISTER_PATH, Profile(name, email, password, avatar)), codec, server)
  }

  /** `logout()`: clear both slots of the session and of the store, then send
      the host UI to the login page. `loading` is left as it was. */
  function Logout(c: Client, codec: UserCodec): (r: LogoutStep)
    ensures r.client.session == Session(None, None, c.session.loading)
    ensures TOKEN_KEY !in r.client.store && USER_KEY !in r.client.store
    ensures OthersUnchanged(c.store, r.client.store)
    ensures Synced(r.client.session, r.client.store, codec)
    ensures r.redirect == LOGIN_ROUTE
  {
    var s := Session(None, None, c.session.loading);
    var cleared := c.store - {TOKEN_KEY} - {USER_KEY};
    LogoutStep(Client(s, Effects(c.session, s, codec, cleared)), LOGIN_ROUTE)
  }

  // ---------------------------------------------------------------------------
  // Properties across transitions

  /** Logging out twice ends where logging out once does. */
  lemma LogoutIdempotent(c: Client, codec: UserCodec)
    ensures Logout(Logout(c, codec).client, codec) == Logout(c, codec)
  {
    var once := Logout(c, codec).client;
    assert once.store - {TOKEN_KEY} - {USER_KEY} == once.store;
  }

  /** A corrupt stored user never fails startup: the session starts without a
      user and the corrupt text is removed from the store. */
  lemma CorruptUserDegrades(store: Store, codec: UserCodec)
    requires ParsesNull(codec)
    requires USER_KEY in store && codec.parse(store[USER_KEY]).None?
    ensures Mount(store, codec).session.user.None?
    ensures USER_KEY !in Mount(store, codec).store
    ensures Mount(store, codec).session.token == RestoreToken(store)
  {
  }

  /** Write-through makes a reload lossless: mounting on the store a synced
      session left behind restores that session's user and token (an empty
      token comes back as null), with `loading` false and the store as it was. */
  lemma ReloadRestores(c: Client, codec: UserCodec)
    requires ParsesNull(codec) && RoundTrips(codec)
    requires Synced(c.session, c.store, codec)
    ensures Mount(c.store, codec).session.user == c.session.user
    ensures Mount(c.store, codec).session.token == (if Truthy(c.session.token) then c.session.token else None)
    ensures !Mount(c.store, codec).session.loading
    ensures Mount(c.store, codec).store == c.store
  {
    var s := c.session;
    if s.user.Some? {
      var u := s.user.value;
      assert codec.stringify(u) != "" && codec.parse(codec.stringify(u)) == Some(Some(u));
    }
    var m := Mount(c.store, codec);
    assert m.session.token == (if Truthy(s.token) then s.token else None);
    assert m.session.user == s.user;
    var t := WriteToken(m.session.token, c.store);
    assert t == c.store by {
      if Truthy(s.token) {
        assert c.store[TOKEN_KEY := s.token.value] == c.store;
      } else {
        assert c.store - {TOKEN_KEY} == c.store;
      }
    }
    assert WriteUser(m.session.user, codec, t) == c.store by {
      if s.user.Some? {
        assert c.store[USER_KEY := codec.stringify(s.user.value)] == c.store;
      } else {
        assert c.store - {USER_KEY} == c.store;
      }
    }
  }

  /** After a successful login, a reload restores exactly the granted session. */
  lemma LoginSurvivesReload(c: Client, email: string, password: string, codec: UserCodec,
                            server: Post -> AuthReply)
    requires ParsesNull(codec) && RoundTrips(codec)
    requires Synced(c.session, c.store, codec)
    requires server(Post(LOGIN_PATH, Credentials(email, password))).Granted?
    requires server(Post(LOGIN_PATH, Credentials(email, password))).token != ""
    ensures Mount(Login(c, email, password, codec, server).client.store, codec).session
            == Login(c, email, password, codec, server).client.session
  {
    var r := Login(c, email, password, codec, server);
    ReloadRestores(r.client, codec);
  }
}
