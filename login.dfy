/** The auth0_ui wrapper: on every page request it either answers a
    callback carrying `code` (rejecting a state that does not match), or
    sends the browser to the provider's authorization endpoint
    (section 4.1.1 of RFC 6749) with a script that replaces the page. */
module Login {
  import opened Values
  import opened Urls
  import opened Config

  /** The arguments auth0_ui was given besides the wrapped UI function. */
  datatype UiWrapper = UiWrapper(configPath: Option<string>, state: Option<string>)

  /** `request.query_params.get("code")` and `.get("state")` */
  datatype Query = Query(code: Option<string>, state: Option<string>)

  /** What the wrapper returns: the CSRF error heading, the wrapped UI's own
      result, or the script that navigates to the login page. */
  datatype Page<T> = CsrfError(message: string) | Protected(page: T) | LoginScript(script: string)

  const CsrfMessage: string := "Erro de autenticação: state inválido (possível CSRF)."

  const Scope: string := "openid profile email"

  /** The CSRF test of the callback: a state is refused only when one was
      received, one was expected, both are non-empty and they differ. */
  predicate StateMismatch(received: Option<string>, expected: Option<string>) {
    NonEmpty(received) && NonEmpty(expected) && received.value != expected.value
  }

  /** The state sent to the provider: the wrapper's own when it has one
      (even an empty one), a fresh `secrets.token_urlsafe(16)` otherwise. */
  function RedirectState(expected: Option<string>, freshToken: string): string {
    match expected
    case Some(s) => s
    case None => freshToken
  }

  /** The parameters of the authorization request, in the order the dict
      literal gives them, or the KeyError raised while building it. */
  function AuthorizeParams(config: Mapping, state: string): Result<seq<(string, string)>> {
    if "client_id" !in config then Err(KeyError("client_id"))
    else if "redirect_uri" !in config then Err(KeyError("redirect_uri"))
    else Ok(LoginParams(config["client_id"], config["redirect_uri"], state))
  }

  /** The five parameters, each value as `str()` renders it. */
  function LoginParams(clientId: Value, redirectUri: Value, state: string): seq<(string, string)> {
    [("client_id", Str(clientId)),
     ("response_type", "code"),
     ("redirect_uri", Str(redirectUri)),
     ("scope", Scope),
     ("state", state)]
  }

  function AuthorizeUrl(domain: string, params: seq<(string, string)>): string {
    "https://" + domain + "/authorize?" + UrlEncode(params)
  }

  /** `window.location.replace('<url>');`, so the login URL does not stay in
      the browser history. */
  function ReplaceScript(url: string): string {
    "window.location.replace('" + url + "');"
  }

  /** The wrapper auth0_ui puts around the UI function `render`. */
  function Auth0Ui<T>(ui: UiWrapper, host: Host, freshToken: string, query: Query,
                      render: Query -> T): (r: Result<Page<T>>)
    // the configuration is loaded first, on every path
    ensures LoadAuth0Config(ui.configPath, host).Err? ==>
      r == Err(LoadAuth0Config(ui.configPath, host).error)
    // a callback with a mismatching state gets the error and nothing else
    ensures r == Ok(CsrfError(CsrfMessage)) <==>
      LoadAuth0Config(ui.configPath, host).Ok? && NonEmpty(query.code) &&
      StateMismatch(query.state, ui.state)
    // any other callback gets the wrapped UI's result, unchanged
    ensures (r.Ok? && r.value.Protected?) <==>
      LoadAuth0Config(ui.configPath, host).Ok? && NonEmpty(query.code) &&
      !StateMismatch(query.state, ui.state)
    ensures r.Ok? && r.value.Protected? ==> r.value.page == render(query)
    // without a code the browser is sent to the provider
    ensures (r.Ok? && r.value.LoginScript?) <==>
      LoadAuth0Config(ui.configPath, host).Ok? && !NonEmpty(query.code) &&
      "client_id" in LoadAuth0Config(ui.configPath, host).value &&
      "redirect_uri" in LoadAuth0Config(ui.configPath, host).value
  {
    match LoadAuth0Config(ui.configPath, host)
    case Err(e) => Err(e)
    case Ok(config) =>
      if NonEmpty(query.code) then
        if StateMismatch(query.state, ui.state) then Ok(CsrfError(CsrfMessage))
        else Ok(Protected(render(query)))
      else
        match AuthorizeParams(config, RedirectState(ui.state, freshToken))
        case Err(e) => Err(e)
        case Ok(params) => Ok(LoginScript(ReplaceScript(AuthorizeUrl(Str(config["domain"]), params))))
  }

  /** On a CSRF mismatch the wrapped UI function plays no part: the answer
      is the same whatever it would have rendered. */
  lemma CsrfIgnoresWrappedUi<T>(ui: UiWrapper, host: Host, freshToken: string, query: Query,
                                render1: Query -> T, render2: Query -> T)
    requires LoadAuth0Config(ui.configPath, host).Ok?
    requires NonEmpty(query.code) && StateMismatch(query.state, ui.state)
    ensures Auth0Ui(ui, host, freshToken, query, render1) == Auth0Ui(ui, host, freshToken, query, render2)
  {
  }

  /** The state is the only parameter of that name. */
  lemma LoginParamsState(clientId: Value, redirectUri: Value, state: string)
    ensures forall i :: 0 <= i < 4 ==> LoginParams(clientId, redirectUri, state)[i].0 != "state"
    ensures LoginParams(clientId, redirectUri, state)[4] == ("state", state)
    ensures FirstValue(LoginParams(clientId, redirectUri, state), "state") == Some(state)
  {
    assert "client_id"[1] != "state"[1] && "response_type"[1] != "state"[1];
    assert "redirect_uri"[1] != "state"[1] && "scope"[1] != "state"[1];
    FirstValueAt(LoginParams(clientId, redirectUri, state), "state", 4);
  }

  /** The authorization query reads back as its parameters less those with
      an empty value; a non-empty state reads back as itself. */
  lemma LoginQueryReadsBack(clientId: Value, redirectUri: Value, state: string)
    ensures ParseQsl(UrlEncode(LoginParams(clientId, redirectUri, state)))
            == NonBlank(LoginParams(clientId, redirectUri, state))
    ensures state != "" ==>
      FirstValue(ParseQsl(UrlEncode(LoginParams(clientId, redirectUri, state))), "state") == Some(state)
  {
    var params := LoginParams(clientId, redirectUri, state);
    ParseQslUrlEncode(params);
    LoginParamsState(clientId, redirectUri, state);
    if state != "" {
      FirstValueNonBlank(params, "state");
    }
  }

  /** The login redirect: the script navigates to
      https://<domain>/authorize?<urlencoded parameters>, the parameters
      being the five in order with the wrapper's state, or the fresh token
      when the wrapper has none. The query reads back as those parameters
      less any with an empty value, and a non-empty state reads back as
      the state sent. */
  lemma LoginRedirect<T>(ui: UiWrapper, host: Host, freshToken: string, query: Query,
                         render: Query -> T)
    requires LoadAuth0Config(ui.configPath, host).Ok?
    requires !NonEmpty(query.code)
    requires var config := LoadAuth0Config(ui.configPath, host).value;
      "client_id" in config && "redirect_uri" in config
    ensures var config := LoadAuth0Config(ui.configPath, host).value;
      var state := if ui.state.Some? then ui.state.value else freshToken;
      var params := LoginParams(config["client_id"], config["redirect_uri"], state);
      && Auth0Ui(ui, host, freshToken, query, render)
         == Ok(LoginScript(ReplaceScript("https://" + config["domain"].s + "/authorize?" + UrlEncode(params))))
      && ParseQsl(UrlEncode(params)) == NonBlank(params)
      && (state != "" ==> FirstValue(ParseQsl(UrlEncode(params)), "state") == Some(state))
  {
    var config := LoadAuth0Config(ui.configPath, host).value;
    LoginQueryReadsBack(config["client_id"], config["redirect_uri"], RedirectState(ui.state, freshToken));
  }
}
