/** The request interceptor of the HTTP client: before every request it reads
    the stored token and, when that token is truthy, sets a bearer
    `Authorization` header on the request configuration. */
module Interceptor {
  import opened Common
  import Session

  const AUTHORIZATION: string := "Authorization"
  const BEARER: string := "Bearer "

  type Headers = map<string, string>

  /** A request configuration: its headers, which may be missing, and every
      other setting (url, method, data, ...), kept opaque as text. */
  datatype Config = Config(settings: map<string, string>, headers: Option<Headers>)

  /** The interceptor callback. A missing headers object is created before the
      header is set; other headers are kept. */
  function Intercept(config: Config, store: Session.Store): (r: Config)
    ensures r.settings == config.settings
    ensures Truthy(Get(store, Session.TOKEN_KEY)) ==>
              && r.headers.Some?
              && Get(r.headers.value, AUTHORIZATION) == Some(BEARER + store[Session.TOKEN_KEY])
              && (config.headers.Some? ==> r.headers.value.Keys == config.headers.value.Keys + {AUTHORIZATION})
              && (config.headers.None? ==> r.headers.value.Keys == {AUTHORIZATION})
              && (forall k :: k != AUTHORIZATION && config.headers.Some? && k in config.headers.value ==>
                    Get(r.headers.value, k) == Get(config.headers.value, k))
    ensures !Truthy(Get(store, Session.TOKEN_KEY)) ==> r == config
  {
    var token := Get(store, Session.TOKEN_KEY);
    if Truthy(token) then
      var headers := match config.headers case Some(h) => h case None => map[];
      config.(headers := Some(headers[AUTHORIZATION := BEARER + token.value]))
    else
      config
  }

  /** Requests carry the session's own credential: with the store in step with
      the session, the header is the bearer form of the session token exactly
      when that token is truthy, and nothing is added otherwise. */
  lemma CarriesSessionToken(c: Session.Client, codec: Session.UserCodec, config: Config)
    requires Session.Synced(c.session, c.store, codec)
    ensures Truthy(c.session.token) ==>
              Get(Intercept(config, c.store).headers.value, AUTHORIZATION) == Some(BEARER + c.session.token.value)
    ensures !Truthy(c.session.token) ==> Intercept(config, c.store) == config
  {
  }

  /** After logout requests go out without an added credential. */
  lemma AnonymousAfterLogout(c: Session.Client, codec: Session.UserCodec, config: Config)
    ensures Intercept(config, Session.Logout(c, codec).client.store) == config
  {
  }
}
