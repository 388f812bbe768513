/** send_auth0_logout: builds the provider's logout URL and pushes it to the
    browser as an "auth0_redirect" custom message. */
module Logout {
  import opened Values
  import opened Utf8
  import opened Urls
  import opened Config

  /** `session.send_custom_message("auth0_redirect", {"url": url})` */
  datatype CustomMessage = CustomMessage(kind: string, url: string)

  /** The query of the logout URL: `client_id` is inserted as it is, while
      `returnTo` is quoted with no safe characters. */
  function LogoutQuery(clientId: string, redirectUri: string): string {
    "client_id=" + clientId + "&returnTo=" + Quote(redirectUri)
  }

  /** The logout URL built from a loaded configuration, or the error raised
      on the way: `config[...]` on a missing key, or quote(None). */
  function LogoutUrl(config: Mapping): (r: Result<string>)
    ensures r.Ok? <==>
      "domain" in config && "client_id" in config && "redirect_uri" in config &&
      config["redirect_uri"].Text?
    ensures ("domain" in config && "client_id" in config && "redirect_uri" in config &&
             config["redirect_uri"].Null?) ==> r == Err(TypeError)
    ensures r.Ok? ==>
      r.value == "https://" + Str(config["domain"]) + "/v2/logout?"
                 + LogoutQuery(Str(config["client_id"]), config["redirect_uri"].s)
  {
    if "domain" !in config then Err(KeyError("domain"))
    else if "client_id" !in config then Err(KeyError("client_id"))
    else if "redirect_uri" !in config then Err(KeyError("redirect_uri"))
    else
      match config["redirect_uri"]
      case Null => Err(TypeError)
      case Text(uri) =>
        Ok("https://" + Str(config["domain"]) + "/v2/logout?client_id=" + Str(config["client_id"])
           + "&returnTo=" + Quote(uri))
  }

  /** `send_auth0_logout(session, config_path)`: the message sent to the
      browser, or the error raised before it. */
  function SendAuth0Logout(configPath: Option<string>, host: Host): (r: Result<CustomMessage>)
    ensures LoadAuth0Config(configPath, host).Err? ==> r == Err(DomainNotConfigured)
    ensures r.Ok? ==>
      r.value.kind == "auth0_redirect" &&
      Ok(r.value.url) == LogoutUrl(LoadAuth0Config(configPath, host).value)
    // with a loaded configuration, the message is sent exactly when the URL
    // can be built, and otherwise the URL's error is what is raised
    ensures LoadAuth0Config(configPath, host).Ok? ==>
      (r.Ok? <==> LogoutUrl(LoadAuth0Config(configPath, host).value).Ok?) &&
      (r.Err? ==> r.error == LogoutUrl(LoadAuth0Config(configPath, host).value).error)
  {
    match LoadAuth0Config(configPath, host)
    case Err(e) => Err(e)
    case Ok(config) =>
      match LogoutUrl(config)
      case Err(e) => Err(e)
      case Ok(url) => Ok(CustomMessage("auth0_redirect", url))
  }

  /** A string of unreserved characters reads back as itself. */
  lemma UnquoteUnreserved(s: string)
    requires forall i :: 0 <= i < |s| ==> UnreservedChar(s[i])
    ensures Unquote(PlusToSpace(s)) == s
  {
    assert PlusToSpace(s) == s;
  }

  lemma LogoutQuerySplit(clientId: string, redirectUri: string)
    requires forall i :: 0 <= i < |clientId| ==> UnreservedChar(clientId[i])
    ensures Split(LogoutQuery(clientId, redirectUri), '&')
            == ["client_id=" + clientId, "returnTo=" + Quote(redirectUri)]
  {
    var f1 := "client_id=" + clientId;
    var f2 := "returnTo=" + Quote(redirectUri);
    assert LogoutQuery(clientId, redirectUri) == Join([f1, f2], '&');
    assert '&' !in f1 by {
      assert forall i :: 0 <= i < |f1| ==> f1[i] == '=' || UnreservedChar(f1[i]);
    }
    assert '&' !in f2 by {
      QuoteEscapesDelimiters(redirectUri);
    }
    SplitJoin([f1, f2], '&');
  }

  lemma ParseTwoFields(f1: string, f2: string)
    ensures ParseFields([f1, f2]) == ParseField(f1) + ParseField(f2)
  {
    assert ParseFields([f2]) == ParseField(f2) + ParseFields([]) by {
      assert [f2][1..] == [];
    }
    assert ParseFields([f1, f2]) == ParseField(f1) + ParseFields([f2]) by {
      assert [f1, f2][1..] == [f2];
    }
  }

  lemma ClientIdField(clientId: string)
    requires clientId != "" && forall i :: 0 <= i < |clientId| ==> UnreservedChar(clientId[i])
    ensures ParseField("client_id=" + clientId) == [("client_id", clientId)]
  {
    KeyReadsBack("client_id");
    KeyReadsBack(clientId);
    ParseFieldAt("client_id", clientId);
    assert "client_id=" + clientId == "client_id" + "=" + clientId;
  }

  lemma ReturnToField(redirectUri: string)
    requires redirectUri != ""
    ensures ParseField("returnTo=" + Quote(redirectUri)) == [("returnTo", redirectUri)]
  {
    var v := Quote(redirectUri);
    assert Encode(redirectUri) != [];
    QuoteNonEmpty(Encode(redirectUri), false);
    UnquoteQuote(redirectUri, false);
    KeyReadsBack("returnTo");
    ParseFieldAt("returnTo", v);
    assert "returnTo=" + v == "returnTo" + "=" + v;
  }

  /** A key made of unreserved characters has no "=" and reads back as
      itself. */
  lemma KeyReadsBack(key: string)
    requires forall i :: 0 <= i < |key| ==> UnreservedChar(key[i])
    ensures '=' !in key && Unquote(PlusToSpace(key)) == key
  {
    assert !UnreservedChar('=');
    UnquoteUnreserved(key);
  }

  /** The logout query reads back as exactly `client_id` and `returnTo`,
      and `returnTo` is the redirect URI itself even though it holds "/" and
      ":" (quote escapes them). `client_id` is not quoted, so this holds
      only for a client id made of unreserved characters. */
  lemma LogoutQueryReadsBack(clientId: string, redirectUri: string)
    requires clientId != "" && forall i :: 0 <= i < |clientId| ==> UnreservedChar(clientId[i])
    requires redirectUri != ""
    ensures ParseQsl(LogoutQuery(clientId, redirectUri)) ==
      [("client_id", clientId), ("returnTo", redirectUri)]
  {
    var f1 := "client_id=" + clientId;
    var f2 := "returnTo=" + Quote(redirectUri);
    LogoutQuerySplit(clientId, redirectUri);
    ParseTwoFields(f1, f2);
    ClientIdField(clientId);
    ReturnToField(redirectUri);
  }
}
