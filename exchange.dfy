/** validate_jwt and fetch_userinfo: the code-for-token exchange of the
    authorization code grant (section 4.1.3 of RFC 6749) followed by the
    userinfo request with the access token as a bearer credential
    (section 2.1 of RFC 6750). The provider is an oracle that answers each
    request; what is sent to it is recorded in order. */
module CodeExchange {
  import opened Values

  datatype HttpRequest =
    | Post(url: string, json: Mapping)                  // requests.post(url, json=payload)
    | Get(url: string, headers: map<string, string>)    // requests.get(url, headers=headers)

  /** The parts of a requests Response the flow reads: status_code, text and
      the object json() returns. */
  datatype HttpResponse = HttpResponse(status: int, text: string, json: Mapping)

  /** The identity provider's HTTP API. */
  type Provider = HttpRequest -> HttpResponse

  /** `resp.raise_for_status()` raises for client and server errors only. */
  predicate RaisesForStatus(resp: HttpResponse) {
    400 <= resp.status < 600
  }

  /** `resp.ok`: true exactly when raise_for_status does not raise, so a
      status of 600 or more is ok. */
  predicate IsOk(resp: HttpResponse) {
    !RaisesForStatus(resp)
  }

  function TokenUrl(domain: string): string {
    "https://" + domain + "/oauth/token"
  }

  /** The request fetch_userinfo(domain, access_token) sends. */
  function UserinfoRequest(domain: string, accessToken: string): (req: HttpRequest)
    ensures req.Get? && req.url == "https://" + domain + "/userinfo"
    ensures req.headers.Keys == {"Authorization"}
    ensures req.headers["Authorization"] == "Bearer " + accessToken
  {
    Get("https://" + domain + "/userinfo", map["Authorization" := "Bearer " + accessToken])
  }

  /** The keys `config[...]` must find while validate_jwt builds its
      request. */
  const RequiredKeys: set<string> := {"domain", "client_id", "client_secret", "redirect_uri"}

  /** The first key validate_jwt looks up and does not find; the lookups
      happen in the order domain, client_id, client_secret, redirect_uri. */
  function MissingKey(config: Mapping): (k: Option<string>)
    ensures k.None? <==> RequiredKeys <= config.Keys
    ensures k.Some? ==> k.value in RequiredKeys && k.value !in config
  {
    if "domain" !in config then Some("domain")
    else if "client_id" !in config then Some("client_id")
    else if "client_secret" !in config then Some("client_secret")
    else if "redirect_uri" !in config then Some("redirect_uri")
    else None
  }

  /** The token request payload. */
  function TokenPayload(code: string, config: Mapping): (p: Mapping)
    requires MissingKey(config).None?
    ensures p.Keys == {"grant_type", "client_id", "client_secret", "code", "redirect_uri"}
      + (if Truthy(config, "audience") then {"audience"} else {})
    ensures p["grant_type"] == Text("authorization_code") && p["code"] == Text(code)
    ensures p["client_id"] == config["client_id"] && p["client_secret"] == config["client_secret"]
    ensures p["redirect_uri"] == config["redirect_uri"]
    ensures "audience" in p ==> p["audience"] == config["audience"]
  {
    var base := map[
      "grant_type" := Text("authorization_code"),
      "client_id" := config["client_id"],
      "client_secret" := config["client_secret"],
      "code" := Text(code),
      "redirect_uri" := config["redirect_uri"]
    ];
    if Truthy(config, "audience") then base["audience" := config["audience"]] else base
  }

  /** `token_data.get("access_token")` when it is truthy. */
  function AccessToken(body: Mapping): (t: Option<string>)
    ensures t.Some? <==> Truthy(body, "access_token")
    ensures t.Some? ==> t.value != "" && body["access_token"] == Text(t.value)
  {
    if Truthy(body, "access_token") then Some(body["access_token"].s) else None
  }

  /** The result of one validate_jwt call and the requests it sent. */
  datatype Attempt = Attempt(result: Result<Profile>, sent: seq<HttpRequest>)

  /** What `validate_jwt(code, config, state)` does against `provider`.
      The `state` argument is not a parameter: validate_jwt never reads it. */
  function Exchange(code: string, config: Mapping, provider: Provider): (a: Attempt)
    // a missing configuration key is raised before anything is sent
    ensures MissingKey(config).Some? ==> a == Attempt(Err(KeyError(MissingKey(config).value)), [])
    // otherwise the token request goes first, and at most one request follows
    ensures MissingKey(config).None? ==>
      1 <= |a.sent| <= 2 &&
      a.sent[0] == Post(TokenUrl(Str(config["domain"])), TokenPayload(code, config))
    // the userinfo request is made exactly when the token reply is ok and
    // carries an access token, and then it is made with that token
    ensures |a.sent| == 2 <==>
      MissingKey(config).None? && IsOk(provider(a.sent[0])) &&
      AccessToken(provider(a.sent[0]).json).Some?
    ensures |a.sent| == 2 ==>
      a.sent[1] == UserinfoRequest(Str(config["domain"]),
                                   AccessToken(provider(a.sent[0]).json).value)
    // the failures of the token step
    ensures |a.sent| == 1 && !IsOk(provider(a.sent[0])) ==>
      a.result == Err(TokenExchangeFailed(provider(a.sent[0]).text))
    ensures |a.sent| == 1 && IsOk(provider(a.sent[0])) ==> a.result == Err(AccessTokenMissing)
    // the userinfo step: its JSON body is the profile unless its status raises
    ensures |a.sent| == 2 ==>
      a.result == if RaisesForStatus(provider(a.sent[1])) then Err(HttpError(provider(a.sent[1]).status))
                  else Ok(provider(a.sent[1]).json)
  {
    if MissingKey(config).Some? then
      Attempt(Err(KeyError(MissingKey(config).value)), [])
    else
      var domain := Str(config["domain"]);
      var post := Post(TokenUrl(domain), TokenPayload(code, config));
      var resp := provider(post);
      if !IsOk(resp) then
        Attempt(Err(TokenExchangeFailed(resp.text)), [post])
      else
        match AccessToken(resp.json)
        case None => Attempt(Err(AccessTokenMissing), [post])
        case Some(token) =>
          var get := UserinfoRequest(domain, token);
          var info := provider(get);
          if RaisesForStatus(info) then Attempt(Err(HttpError(info.status)), [post, get])
          else Attempt(Ok(info.json), [post, get])
  }

  /** `fetch_userinfo(domain, access_token)` */
  method FetchUserinfo(domain: string, accessToken: string, provider: Provider)
    returns (result: Result<Profile>, request: HttpRequest)
    ensures request == UserinfoRequest(domain, accessToken)
    ensures result == if RaisesForStatus(provider(request)) then Err(HttpError(provider(request).status))
                      else Ok(provider(request).json)
  {
    var url := "https://" + domain + "/userinfo";
    var headers := map["Authorization" := "Bearer " + accessToken];
    request := Get(url, headers);
    var resp := provider(request);
    if RaisesForStatus(resp) {
      return Err(HttpError(resp.status)), request;
    }
    result := Ok(resp.json);
  }

  /** `validate_jwt(code, config, state)`, step by step: look up the
      configuration, build the payload and add the audience when it is
      truthy, post it, check the reply, then fetch the profile. `sent`
      lists the requests in the order they were made. */
  method ValidateJwt(code: string, config: Mapping, state: Option<string>, provider: Provider)
    returns (result: Result<Profile>, sent: seq<HttpRequest>)
    ensures Attempt(result, sent) == Exchange(code, config, provider)
  {
    sent := [];
    if "domain" !in config {
      return Err(KeyError("domain")), sent;
    }
    var tokenUrl := "https://" + Str(config["domain"]) + "/oauth/token";
    if "client_id" !in config {
      return Err(KeyError("client_id")), sent;
    }
    if "client_secret" !in config {
      return Err(KeyError("client_secret")), sent;
    }
    if "redirect_uri" !in config {
      return Err(KeyError("redirect_uri")), sent;
    }
    var payload := map[
      "grant_type" := Text("authorization_code"),
      "client_id" := config["client_id"],
      "client_secret" := config["client_secret"],
      "code" := Text(code),
      "redirect_uri" := config["redirect_uri"]
    ];
    if Truthy(config, "audience") {
      payload := payload["audience" := config["audience"]];
    }
    var post := Post(tokenUrl, payload);
    var resp := provider(post);
    sent := sent + [post];
    if !IsOk(resp) {
      return Err(TokenExchangeFailed(resp.text)), sent;
    }
    var tokenData := resp.json;
    if !Truthy(tokenData, "access_token") {
      return Err(AccessTokenMissing), sent;
    }
    var accessToken := tokenData["access_token"].s;
    var get;
    result, get := FetchUserinfo(Str(config["domain"]), accessToken, provider);
    sent := sent + [get];
  }
}
