/** The request parameters src/client.js builds: the authorize link of the `/`
    route, the form body of the code-for-token exchange of the `/callback` route,
    and the `/callback` guard that comes before it. The HTTP server, the HTML pages
    and the network calls themselves are not modelled. */
module OAuthClient {
  import opened Wrappers
  import opened JsStrings
  import opened QueryString

  /** The settings src/client.js takes from the environment. */
  datatype Config = Config(
    clientId: string,       // REACT_APP_CLIENT_ID
    clientSecret: string,   // REACT_APP_CLIENT_SECRET
    redirectUri: string,    // REACT_APP_REDIRECT_URI
    authServerUrl: string,  // REACT_APP_AUTH_SERVER_URL
    account: string)        // ACCOUNT, sent as `user_id`

  /** `Math.floor(Math.random() * 10000)`: the random draw behind `state`. */
  type StateDraw = r: int | 0 <= r < 10000

  /** The properties of the object handed to `querystring.stringify` for the
      authorize link, in the order of the object literal. `nullifierSeed` is the
      string form of the value the source means to send as `nullifier_seed`. */
  function AuthorizeParams(cfg: Config, draw: StateDraw, nullifierSeed: string): seq<(string, string)>
  {
    [ ("grant_type", "code"),
      ("client_id", cfg.clientId),
      ("user_id", cfg.account),
      ("redirect_uri", cfg.redirectUri),
      ("scope", "zk-firma-digital"),
      ("state", DecimalString(draw)),
      ("nullifier_seed", nullifierSeed) ]
  }

  function AuthorizePrefix(cfg: Config): string
  {
    cfg.authServerUrl + "/authorize?"
  }

  /** The authorize link the `/` route puts in its page. */
  function AuthorizeUrl(cfg: Config, draw: StateDraw, nullifierSeed: string): string
  {
    AuthorizePrefix(cfg) + Stringify(AuthorizeParams(cfg, draw, nullifierSeed))
  }

  /** The properties of the form body posted to the token endpoint. */
  function TokenParams(cfg: Config, code: string): seq<(string, string)>
  {
    [ ("code", code),
      ("client_id", cfg.clientId),
      ("client_secret", cfg.clientSecret),
      ("redirect_uri", cfg.redirectUri),
      ("grant_type", "authorization_code") ]
  }

  /** What the `/callback` route does with a request: answer 400 at once, or post
      the given body to the token endpoint. */
  datatype CallbackStep =
    | Rejected(status: int, message: string)
    | PostToken(url: string, contentType: string, body: string)

  /** JavaScript truthiness of a query value: `undefined` and `""` are falsy. */
  predicate Truthy(value: Option<string>)
  {
    value.Some? && value.value != ""
  }

  /** The `/callback` route up to the token request. `code` and `state` are the
      query parameters of the same name (`None` when absent). */
  function Callback(cfg: Config, code: Option<string>, state: Option<string>): CallbackStep
  {
    if !Truthy(code) then Rejected(400, "Se requiere código de autenticación")
    else PostToken(cfg.authServerUrl + "/token", "application/x-www-form-urlencoded",
                   Stringify(TokenParams(cfg, code.value)))
  }

  // ---------------------------------------------------------------------------
  // Properties

  /** The properties of the authorize link: `grant_type` `code` (and no
      `response_type`), the configured `client_id`, `user_id` and `redirect_uri`,
      `scope` `zk-firma-digital`, the seed, and a `state` of one to four decimal
      digits, without a superfluous leading zero, whose value is the draw. */
  lemma AuthorizeParamsCarry(cfg: Config, draw: StateDraw, nullifierSeed: string)
    ensures var params := AuthorizeParams(cfg, draw, nullifierSeed);
      && Lookup(params, "grant_type") == Some("code")
      && Lookup(params, "response_type") == None
      && Lookup(params, "client_id") == Some(cfg.clientId)
      && Lookup(params, "user_id") == Some(cfg.account)
      && Lookup(params, "redirect_uri") == Some(cfg.redirectUri)
      && Lookup(params, "scope") == Some("zk-firma-digital")
      && Lookup(params, "nullifier_seed") == Some(nullifierSeed)
      && Lookup(params, "state").Some?
      && var state := Lookup(params, "state").value;
      && 1 <= |state| <= 4
      && (forall i :: 0 <= i < |state| ==> '0' <= state[i] <= '9')
      && (|state| > 1 ==> state[0] != '0')
      && DecimalValue(state) == draw
  {
    AuthorizeLookups(cfg, draw, nullifierSeed);
    DecimalRoundTrip(draw);
  }

  lemma AuthorizeLookups(cfg: Config, draw: StateDraw, nullifierSeed: string)
    ensures var params := AuthorizeParams(cfg, draw, nullifierSeed);
      && Lookup(params, "grant_type") == Some("code")
      && Lookup(params, "response_type") == None
      && Lookup(params, "client_id") == Some(cfg.clientId)
      && Lookup(params, "user_id") == Some(cfg.account)
      && Lookup(params, "redirect_uri") == Some(cfg.redirectUri)
      && Lookup(params, "scope") == Some("zk-firma-digital")
      && Lookup(params, "state") == Some(DecimalString(draw))
      && Lookup(params, "nullifier_seed") == Some(nullifierSeed)
  {
    var params := AuthorizeParams(cfg, draw, nullifierSeed);
    AuthorizeKeysDistinct(cfg, draw, nullifierSeed);
    LookupDistinct(params, 0);
    LookupDistinct(params, 1);
    LookupDistinct(params, 2);
    LookupDistinct(params, 3);
    LookupDistinct(params, 4);
    LookupDistinct(params, 5);
    LookupDistinct(params, 6);
    LookupAbsent(params, "response_type");
  }

  lemma AuthorizeKeysDistinct(cfg: Config, draw: StateDraw, nullifierSeed: string)
    ensures var params := AuthorizeParams(cfg, draw, nullifierSeed);
      && (forall j, k :: 0 <= j < k < |params| ==> params[j].0 != params[k].0)
      && (forall j :: 0 <= j < |params| ==> params[j].0 != "response_type")
  {
  }

  lemma TokenKeysDistinct(cfg: Config, code: string)
    ensures var params := TokenParams(cfg, code);
      && (forall j, k :: 0 <= j < k < |params| ==> params[j].0 != params[k].0)
      && (forall j :: 0 <= j < |params| ==> params[j].0 != "scope" && params[j].0 != "state")
  {
  }

  /** The authorize link is the authorize endpoint followed by a query that reads
      back as exactly those seven properties, in order. */
  lemma AuthorizeUrlCarries(cfg: Config, draw: StateDraw, nullifierSeed: string)
    ensures var url := AuthorizeUrl(cfg, draw, nullifierSeed);
      && |AuthorizePrefix(cfg)| <= |url|
      && url[..|AuthorizePrefix(cfg)|] == AuthorizePrefix(cfg)
      && ReadFields(url[|AuthorizePrefix(cfg)|..]) == Some(AuthorizeParams(cfg, draw, nullifierSeed))
  {
    var params := AuthorizeParams(cfg, draw, nullifierSeed);
    var url := AuthorizeUrl(cfg, draw, nullifierSeed);
    var prefix := AuthorizePrefix(cfg);
    assert url[|prefix|..] == Stringify(params);
    ReadStringify(params);
  }

  /** The properties of the token request: the received `code` unchanged,
      `grant_type` `authorization_code`, the configured `client_id`,
      `client_secret` and `redirect_uri`, and no `scope`. */
  lemma TokenParamsCarry(cfg: Config, code: string)
    ensures var params := TokenParams(cfg, code);
      && Lookup(params, "code") == Some(code)
      && Lookup(params, "grant_type") == Some("authorization_code")
      && Lookup(params, "client_id") == Some(cfg.clientId)
      && Lookup(params, "client_secret") == Some(cfg.clientSecret)
      && Lookup(params, "redirect_uri") == Some(cfg.redirectUri)
      && Lookup(params, "scope") == None
      && Lookup(params, "state") == None
  {
    var params := TokenParams(cfg, code);
    TokenKeysDistinct(cfg, code);
    LookupDistinct(params, 0);
    LookupDistinct(params, 1);
    LookupDistinct(params, 2);
    LookupDistinct(params, 3);
    LookupDistinct(params, 4);
    LookupAbsent(params, "scope");
    LookupAbsent(params, "state");
  }

  /** The token request body reads back as exactly those properties. */
  lemma TokenBodyCarries(cfg: Config, code: string)
    ensures ReadFields(Stringify(TokenParams(cfg, code))) == Some(TokenParams(cfg, code))
  {
    ReadStringify(TokenParams(cfg, code));
  }

  /** A callback without a `code`, or with an empty one, is answered with 400 and no
      token request is made; any other callback posts the form body carrying that
      code to the token endpoint. */
  lemma CallbackGuard(cfg: Config, code: Option<string>, state: Option<string>)
    ensures Callback(cfg, code, state).Rejected? <==> code.None? || code.value == ""
    ensures Callback(cfg, code, state).Rejected? ==> Callback(cfg, code, state).status == 400
    ensures Callback(cfg, code, state).PostToken? ==>
      && Callback(cfg, code, state).url == cfg.authServerUrl + "/token"
      && ReadFields(Callback(cfg, code, state).body) == Some(TokenParams(cfg, code.value))
  {
    if Truthy(code) {
      TokenBodyCarries(cfg, code.value);
    }
  }

  /** The `state` echoed back to the callback is never compared with the one that was
      sent: the outcome is the same whatever it is. */
  lemma CallbackIgnoresState(cfg: Config, code: Option<string>, state1: Option<string>, state2: Option<string>)
    ensures Callback(cfg, code, state1) == Callback(cfg, code, state2)
  {
  }

  // ---------------------------------------------------------------------------
  // The authorize route as written

  /** The names declared at the top level of src/client.js. */
  const ClientModuleNames: set<string> :=
    {"express", "axios", "querystring", "app", "CLIENT_ID", "CLIENT_SECRET",
     "REDIRECT_URI", "AUTH_SERVER_URL", "ACCOUNT", "parseJwt", "PORT"}

  datatype RouteError = ReferenceError(name: string)

  /** The `/` route as written: evaluating the object literal reads the identifier
      `voteScope`, which is looked up among the bindings in scope (given with their
      string values) and throws a `ReferenceError` when there is none. */
  function AuthorizeUrlAsWritten(cfg: Config, draw: StateDraw, scope: map<string, string>): Result<string, RouteError>
  {
    if "voteScope" in scope then Ok(AuthorizeUrl(cfg, draw, scope["voteScope"]))
    else Err(ReferenceError("voteScope"))
  }

  /** Nothing in src/client.js declares `voteScope`, so with only the module's own
      names in scope the `/` route throws on every request and no link is built. */
  lemma AuthorizeRouteThrows(cfg: Config, draw: StateDraw, scope: map<string, string>)
    requires scope.Keys <= ClientModuleNames
    ensures AuthorizeUrlAsWritten(cfg, draw, scope) == Err(ReferenceError("voteScope"))
  {
    assert "voteScope" !in ClientModuleNames;
  }

  /** Once `voteScope` is bound, the route builds exactly the corrected link, with its
      value as the nullifier seed. */
  lemma AuthorizeRouteWithSeed(cfg: Config, draw: StateDraw, scope: map<string, string>)
    requires "voteScope" in scope
    ensures AuthorizeUrlAsWritten(cfg, draw, scope) == Ok(AuthorizeUrl(cfg, draw, scope["voteScope"]))
  {
  }
}
