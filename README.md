# shiny-py-auth0 login flow, modelled in Dafny

shiny-py-auth0 puts an Auth0 login in front of a Shiny for Python
application using the OAuth 2.0 authorization code grant (section 4.1 of
RFC 6749). This project models the package's core and proves properties
about it.

- **`auth0_ui`** wraps the UI function. A page request without an
  authorization `code` is answered with a script that sends the browser to
  `https://<domain>/authorize?<query>`. A request with a code is the
  provider's callback. If its `state` does not match the expected one, it
  gets a CSRF error heading. Otherwise it gets the protected UI.
- **`auth0_server`** wraps the server function. A reactive effect assigns
  `user_info()` to `session.user`. `user_info()` gives:
  - `{}` when `AUTH0_DISABLE=1`;
  - the bound user when there is one;
  - otherwise the result of exchanging the `code` from the page's query
    string.
- **`validate_jwt`** exchanges the code for an access token. It then
  fetches the profile from `/userinfo` with a bearer header (section 2.1 of
  RFC 6750).
- **`load_auth0_config`** reads the provider settings from a YAML file or
  from the environment. It fails closed when no domain results.
- **`send_auth0_logout`** builds the logout URL with `returnTo`
  percent-encoded (section 2.1 of RFC 3986).
- **`AppAuth0`** draws one state token and gives it to both wrappers.

Modules, in dependency order:

| file | module | contents |
|---|---|---|
| values.dfy | `Values` | Python values: `None` or `str` in a dict, truthiness, `str()`, the exceptions raised |
| utf8.dfy | `Utf8` | UTF-8 encoding, and decoding with `errors="replace"`, as `quote` and `unquote` use them |
| urls.dfy | `Urls` | `quote(safe="")`, `quote_plus`, `urlencode`, `unquote`, `parse_qsl` and `parse_qs(...).get(k)[0]` |
| config.dfy | `Config` | `load_auth0_config` over a host that holds the existing files and the environment |
| exchange.dfy | `CodeExchange` | `validate_jwt` and `fetch_userinfo` against a provider oracle, with the trace of requests sent |
| login.dfy | `Login` | the `auth0_ui` wrapper |
| logout.dfy | `Logout` | `send_auth0_logout` |
| session.dfy | `Server` | the `auth0_server` wrapper: `user_info`, and the session whose `user` field the effect assigns |
| app.dfy | `Application` | `AppAuth0` |

The identity provider is modelled as a function from a request to a
response. What it answers is arbitrary, so every property holds for every
possible provider. The model records the requests the code sends, in
order. That makes "no request is made" and "the userinfo request comes
after the token request" statements about that record.

## Model

| member | source | states |
|---|---|---|
| Config.LoadAuth0Config | src/shiny_auth0/utils.py:8-25 | The file is used only when a non-empty path names an existing file. Otherwise the mapping has exactly the five keys from `AUTH0_DOMAIN`, `AUTH0_CLIENT_ID`, `AUTH0_CLIENT_SECRET`, `AUTH0_REDIRECT_URI` and `AUTH0_AUDIENCE`. Loading fails if and only if the domain is missing or empty, and the failure is the domain error. A successful load returns the resolved mapping unchanged, and its domain is truthy |
| CodeExchange.UserinfoRequest | src/shiny_auth0/utils.py:32-34 | The userinfo request is a GET to `https://<domain>/userinfo`. Its only header is `Authorization: Bearer <token>` |
| CodeExchange.MissingKey | src/shiny_auth0/utils.py:41-47 | No key is reported missing if and only if domain, client_id, client_secret and redirect_uri are all present. A reported key is one of those four and is absent |
| CodeExchange.TokenPayload | src/shiny_auth0/utils.py:42-51 | The payload always has grant_type `authorization_code`, plus client_id, client_secret, code and redirect_uri taken from the configuration and the argument. It has `audience` if and only if the configured audience is truthy, and then with that value |
| CodeExchange.AccessToken | src/shiny_auth0/utils.py:55-58 | A token is found if and only if `access_token` is truthy in the token reply. The token found is that non-empty string |
| CodeExchange.Exchange | src/shiny_auth0/utils.py:38-61 | A missing key is raised before anything is sent. Otherwise the token POST goes first and at most one request follows. The userinfo request is made if and only if the token reply is ok and has an access token, and it uses that token. A reply is ok exactly when `raise_for_status` would not raise: any status outside 400 to 599, 600 and above included. A reply that is not ok gives the failure with the reply's text, and a reply without a token gives the missing-token error; neither sends the userinfo request. Otherwise the result is the userinfo body, or the HTTP error for a 4xx or 5xx status |
| CodeExchange.FetchUserinfo | src/shiny_auth0/utils.py:30-36 | Sends the userinfo request. Returns its body, or the HTTP error when the status is 400 to 599 |
| CodeExchange.ValidateJwt | src/shiny_auth0/utils.py:38-61 | The step-by-step method, including the in-place audience update. Its result and its requests, in order, are those of `Exchange`. Its `state` argument has no effect |
| Login.Auth0Ui | src/shiny_auth0/auth.py:28-64 | A configuration error comes first, on every path. The CSRF heading is returned if and only if there is a non-empty code and both states are non-empty and differ. The wrapped UI's result is returned unchanged if and only if there is a non-empty code and no mismatch. The login script is returned if and only if there is no code and client_id and redirect_uri are configured |
| Login.CsrfIgnoresWrappedUi | src/shiny_auth0/auth.py:35-38 | On a state mismatch the answer does not depend on the wrapped UI function |
| Login.LoginParamsState | src/shiny_auth0/auth.py:54-60 | The authorization parameters have exactly one `state`: it is the last of the five, no other has that name, and it is the chosen state |
| Login.LoginRedirect | src/shiny_auth0/auth.py:49-64 | Without a code, the script is `window.location.replace('https://<domain>/authorize?' + urlencode(params))`. `params` is client_id, response_type `code`, redirect_uri, scope `openid profile email` and state, in that order. The state is the wrapper's own whenever it has one, even an empty one, and the fresh token only when it has none. This holds for empty client_id and redirect_uri values too. The query reads back as those parameters less any with an empty value, and a non-empty state reads back as the state sent |
| Login.LoginQueryReadsBack | src/shiny_auth0/auth.py:54-61 | For any configured values, the authorization query reads back as the five parameters less those with an empty value. A non-empty state reads back as the state sent |
| Logout.LogoutUrl | src/shiny_auth0/auth.py:166-170 | The URL is built if and only if domain, client_id and redirect_uri are present and redirect_uri is a string. A None redirect_uri raises the type error. The URL is `https://<domain>/v2/logout?client_id=<client_id>&returnTo=<quote(redirect_uri, safe="")>` |
| Logout.SendAuth0Logout | src/shiny_auth0/auth.py:159-171 | A configuration error propagates. With a loaded configuration, the message is sent if and only if the logout URL can be built, and otherwise the URL's KeyError or TypeError is what is raised. The message is `auth0_redirect`, and its url is the logout URL of the loaded configuration |
| Logout.LogoutQueryReadsBack | src/shiny_auth0/auth.py:169-170 | The logout query reads back as exactly `client_id` and `returnTo`, with `returnTo` equal to the redirect URI, even though the URI contains `/` and `:`. This needs a client id of unreserved characters, because it is not quoted |
| Urls.QuoteEscapesDelimiters | src/shiny_auth0/auth.py:169 | `quote(s, safe="")` never contains `/`, `:`, `?`, `#`, `&`, `=`, `+` or a space |
| Urls.QuotePlusNoSeparators | src/shiny_auth0/auth.py:61 | `quote_plus` writes neither `&` nor `=` |
| Urls.UrlEncodeNoApostrophe | src/shiny_auth0/auth.py:61-64 | urlencode never writes `'`, so the encoded parameters cannot close the script's string literal |
| Urls.UnquoteQuote | src/shiny_auth0/auth.py:169 | Unquoting, after `+` is turned into a space, undoes `quote` and `quote_plus` for every string, with UTF-8 in between |
| Utf8.DecodeEncode | src/shiny_auth0/auth.py:169 | Decoding the UTF-8 encoding of any string gives the string back |
| Urls.ParseQslUrlEncode | src/shiny_auth0/auth.py:61 | For all parameters, `parse_qsl(urlencode(params))` is `params` without the pairs whose value is empty, in order. So it is `params` itself when no value is empty |
| Urls.FirstValue | src/shiny_auth0/auth.py:103-104 | The value is None if and only if no pair has the key. Otherwise it is the value of the first pair with that key |
| Urls.FirstValueAt | src/shiny_auth0/auth.py:103 | The first pair with the key gives its value |
| Server.UserInfo | src/shiny_auth0/auth.py:84-109 | When disabled, the result is `{}` with no request. A bound user is returned with no request. validate_jwt is called if and only if nothing short-circuits, the configuration loads and the query has a non-empty code, and then its result and requests are those of `Exchange` on that code. A configuration failure or a missing code is an error with no request |
| Server.Session.constructor | src/shiny_auth0/auth.py:83-84 | The kill switch is read once per session. The session starts with no user, no exchange and no request |
| Server.Session.RunAuthEffect | src/shiny_auth0/auth.py:91-112 | One run of the effect gives `user_info()`'s outcome. The new state is `Effect` of the old one: `user` is replaced by the value, or kept when user_info raises, and the exchange count and the request record grow by what the run did |
| Server.Authenticate | src/shiny_auth0/auth.py:110-112 | A new session run through a sequence of effect runs ends in the state `RunAll` gives. Its outcomes are those `Outcomes` gives: each run evaluates `user_info()` on the user the earlier runs left |
| Server.OutcomeAt | src/shiny_auth0/auth.py:110-112 | The outcome of the i-th run is `user_info()` evaluated on the user that the first i runs left, against the i-th run |
| Server.DisabledNeverExchanges | src/shiny_auth0/auth.py:84-89 | With `AUTH0_DISABLE=1` no run exchanges or sends anything, whatever the configuration, and the user becomes `{}` |
| Server.BoundStaysBound | src/shiny_auth0/auth.py:93-95 | Once a user is bound, every further run leaves the session exactly as it was |
| Server.NoExchangeAfterBinding | src/shiny_auth0/auth.py:93-112 | Once a prefix of the runs leaves a user bound, the remaining runs change nothing, so there is no further exchange |
| Server.ExchangedOnce | src/shiny_auth0/auth.py:93-112 | An exchange that yields a non-empty profile binds it and is the only exchange the session makes, whatever runs follow |
| Server.MissingCodeChangesNothing | src/shiny_auth0/auth.py:99-106 | With no user bound, a query without a non-empty `code` raises before any exchange and leaves the session as it was |
| Server.CallbackExchanges | src/shiny_auth0/auth.py:99-107 | For a callback query `?<urlencoded params>`, the code exchanged is the first `code` among the parameters when that is non-empty, whatever the other values are |
| Server.ServerIgnoresCallbackState | src/shiny_auth0/auth.py:102-107 | Two callbacks that differ only in their `state` give the same step, for every code and every state, empty ones included. The server side makes no state check: it exchanges whatever code the query carries |
| Server.CallbackCode | src/shiny_auth0/auth.py:100-104 | The code read from a `?code=…&state=…` callback is that code, or none when it is empty, whatever the state |
| Server.UnboundRunRepeats | src/shiny_auth0/auth.py:91-112 | While no user is bound, a run that exchanged and raised, or bound `{}`, leaves the session unbound. Repeating it exchanges again and sends the same requests again |
| Server.ServerIgnoresWrapperState | src/shiny_auth0/auth.py:104-107 | The wrapper's own `state` argument does not affect `user_info()` |
| Application.AppAuth0 | src/shiny_auth0/auth.py:131-138 | Both wrappers get the same configuration path and the same state, the one token drawn |
| Application.RedirectCarriesToken | src/shiny_auth0/auth.py:131-137 | The login redirect of the application carries its token as the state, never a fresh one, for any configured client_id and redirect_uri. The state read back from the redirect query is that token |
| Application.CallbackChecksToken | src/shiny_auth0/auth.py:35-46 | A callback that echoes the token renders the page. A callback with any other non-empty state gets the CSRF heading |

## Left out

- HTTP transport is left out. `requests.post` and `requests.get` become calls of the provider function. A reply body that is not JSON, or not an object of strings, is not modelled, and neither are network failures.
- YAML parsing, `os.path.exists` and `os.getenv` are left out. The host is a map from existing paths to their `auth0` section, plus the environment. A document without an `auth0` key is modelled as the empty mapping that `yml.get("auth0", {})` gives. Not modelled: an empty document, for which `safe_load` returns None and `.get` raises `AttributeError`; a document or an `auth0` value that is not a mapping; and configuration values that are not strings.
- `secrets.token_urlsafe(16)` is not modelled. Its token is a parameter, and the lemmas only need it to be non-empty.
- Shiny's reactive runtime is left out. Each effect run recomputes `user_info()`, so the memoisation of `reactive.calc` is not modelled. Once a user is bound, a recomputation short-circuits and changes nothing. Before that it need not: after a run that raised, or one that bound the falsy profile `{}`, a repeated run exchanges the code again (`Server.UnboundRunRepeats`), where a cached value would not. The runs therefore cover more sequences than the runtime makes, and the lemmas about them hold for those too. When and how often the effect re-runs is the runtime's choice, so runs are an arbitrary sequence.
- Starlette's query parsing in `auth0_ui` is not modelled. The callback's `code` and `state` are an input.
- `auth0_server` decides on `AUTH0_DISABLE` once, when the wrapper runs for a session. The model takes that decision from the environment in the session's constructor.
- Logging and the wrapped `auth0_logout_js` script are left out. They do not affect any outcome.
- `send_custom_message` is left out. It is an asynchronous push, modelled as the message value it would send. The default `config_path` of `send_auth0_logout` is not modelled; the path is an argument.
- `get_user_info` is left out. It calls `session.user()` on a dict and cannot succeed.
- `get_auth0_client` is left out. It is an unused wrapper around the Auth0 SDK.
- The docstring of `auth0_server` says authentication can be disabled "in your environment or config". The code (src/shiny_auth0/auth.py:84) reads only the environment, and the model follows the code.
- `auth0_server` finally calls the wrapped server function (src/shiny_auth0/auth.py:113). That call is not modelled: it does not touch the session's user. The docstring says `user_info` is passed to the server function as an extra argument. The code never does that, and the model follows the code.
- Dafny's `char` has no surrogate code points, but a Python `str` can hold a lone surrogate, for instance from `os.getenv` with surrogateescape. On such a string `quote` and `urlencode` raise `UnicodeEncodeError`, because they encode strictly. The model cannot reach that error.
- The state check exists only in `auth0_ui`. A CSRF mismatch stops the answer to the page request, not the token exchange. `user_info()` in `auth0_server` exchanges whatever `code` the page's query carries, whatever its `state` (`Server.ServerIgnoresCallbackState`). The model keeps that split.
- A callback whose `state` arrives when no state was expected is not refused. The code only logs a warning and renders the page (src/shiny_auth0/auth.py:41-42), and the model does the same.
- The environment variables read are the five `AUTH0_*` names listed above. The token request is sent as JSON, not form-encoded as section 4.1.3 of RFC 6749 specifies. Only statuses 400 to 599 make `raise_for_status` raise. The model follows the code in each case.
- Logout.LogoutQueryReadsBack: is proved only for a non-empty client id made of unreserved characters, because `client_id` is inserted without quoting, and for a non-empty redirect URI, because `parse_qsl` drops a field whose value is empty.
