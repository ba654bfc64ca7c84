/**
 * Admin authorization: the static credentials, `isAdmin` and the login check
 * of server.js. The three configured values are fixed when the server starts.
 */
module Auth {
  import opened Wrappers
  import opened Errors

  datatype AdminConfig = AdminConfig(token: string, username: string, password: string)

  /** The two request headers `isAdmin` looks at; `None` when the request lacks the header. */
  datatype Headers = Headers(adminToken: Option<string>, authorization: Option<string>)

  const BearerPrefix: string := "Bearer "

  predicate StartsWith(s: string, prefix: string) {
    |prefix| <= |s| && s[..|prefix|] == prefix
  }

  /** The token carried by an `Authorization: Bearer <token>` header, if the header has that form. */
  function BearerToken(authorization: Option<string>): (t: Option<string>)
    ensures t.Some? ==> authorization == Some(BearerPrefix + t.value)
  {
    if authorization.Some? && StartsWith(authorization.value, BearerPrefix)
    then
      var a := authorization.value;
      assert a == a[..|BearerPrefix|] + a[|BearerPrefix|..];
      Some(a[|BearerPrefix|..])
    else None
  }

  /** Every `Bearer <token>` header yields exactly its token. */
  lemma BearerTokenOf(token: string)
    ensures BearerToken(Some(BearerPrefix + token)) == Some(token)
  {
    var a := BearerPrefix + token;
    assert a[..|BearerPrefix|] == BearerPrefix;
    assert a[|BearerPrefix|..] == token;
  }

  /**
   * The candidate token: a non-empty `x-admin-token` header wins; otherwise
   * the token of an `Authorization: Bearer <token>` header, if there is one.
   */
  function Candidate(h: Headers): (t: Option<string>)
    ensures h.adminToken.Some? && h.adminToken.value != "" ==> t == h.adminToken
    ensures !(h.adminToken.Some? && h.adminToken.value != "") ==>
      (t.Some? <==> h.authorization.Some? && StartsWith(h.authorization.value, BearerPrefix))
    ensures !(h.adminToken.Some? && h.adminToken.value != "") && t.Some? ==>
      h.authorization == Some(BearerPrefix + t.value)
  {
    if h.adminToken.Some? && h.adminToken.value != "" then h.adminToken else BearerToken(h.authorization)
  }

  /**
   * `isAdmin`: the candidate token is non-empty and equal to the configured one.
   * Its ensures describes the same decision without slicing: either the
   * `x-admin-token` header is non-empty and is the token, or it is absent or
   * empty and the `Authorization` header is exactly "Bearer " followed by the token.
   */
  function IsAdmin(cfg: AdminConfig, h: Headers): (ok: bool)
    ensures ok <==>
      && cfg.token != ""
      && if h.adminToken.Some? && h.adminToken.value != ""
         then h.adminToken.value == cfg.token
         else h.authorization == Some(BearerPrefix + cfg.token)
  {
    BearerTokenOf(cfg.token);
    var t := Candidate(h);
    t.Some? && t.value != "" && t.value == cfg.token
  }

  /** A request carrying neither header is never admin, whatever the configuration. */
  lemma NoHeadersNotAdmin(cfg: AdminConfig)
    ensures !IsAdmin(cfg, Headers(None, None))
  {
  }

  /** A non-empty `x-admin-token` decides alone: the `Authorization` header is then ignored. */
  lemma AdminTokenHeaderPrecedes(cfg: AdminConfig, token: string, a: Option<string>, b: Option<string>)
    requires token != ""
    ensures IsAdmin(cfg, Headers(Some(token), a)) == IsAdmin(cfg, Headers(Some(token), b))
  {
  }

  /** `/admin/login`: the configured token on an exact match of both username and password. */
  function Login(cfg: AdminConfig, username: string, password: string): (r: Result<string, Error>)
    ensures r.Ok? <==> username == cfg.username && password == cfg.password
    ensures r.Ok? ==> r.value == cfg.token
    ensures r.Err? ==> r.error == InvalidCredentials
  {
    if username != cfg.username || password != cfg.password then Err(InvalidCredentials)
    else Ok(cfg.token)
  }

  /**
   * The token a successful login hands out authorizes the admin routes,
   * sent either way (given a non-empty configured token, as the server
   * always has one).
   */
  lemma LoginTokenAuthorizes(cfg: AdminConfig, username: string, password: string)
    requires Login(cfg, username, password).Ok?
    requires cfg.token != ""
    ensures var token := Login(cfg, username, password).value;
      && IsAdmin(cfg, Headers(Some(token), None))
      && IsAdmin(cfg, Headers(None, Some(BearerPrefix + token)))
      && IsAdmin(cfg, Headers(Some(""), Some(BearerPrefix + token)))
  {
  }
}
